/**
  The writer's gate on what members say (crates/kols-api/src/authorize.rs)
  against the check every reader makes of the record it becomes.
 */
module MessageGate {
  import opened Prelude
  import opened Records
  import Capabilities
  import Limits
  import Redactions
  import View

  datatype Command =
    | SendMessage(text: Text, replyTo: Option<Id>, attachments: seq<Attachment>)
    | EditMessage(target: Id, text: Text)
    | DeleteMessage(target: Id)
    | React(target: Id, key: Text, remove: bool)
    | PinMessage(target: Id, remove: bool)

  datatype Refusal = NoSuchChannel | NotPermitted | Empty | TooLong | TooMany

  /** The network's bounds on what is said, and which texts trim to nothing. */
  datatype Policy = Policy(
    messageMaxBytes: nat, attachmentMaxCount: nat, attachmentMaxBytes: nat, blank: Text -> bool)

  function BodyOf(c: Command): Body {
    match c
    case SendMessage(text, replyTo, attachments) => Message(text, replyTo, attachments)
    case EditMessage(target, text) => Edit(target, text)
    case DeleteMessage(target) => Tombstone(target)
    case React(target, key, remove) => Reaction(target, key, remove)
    case PinMessage(target, remove) => Pin(target, remove)
  }

  /// What a body says, read back as the command it came of.
  function CommandOf(body: Body): Option<Command> {
    match body
    case Message(text, replyTo, attachments) => Some(SendMessage(text, replyTo, attachments))
    case Edit(target, text) => Some(EditMessage(target, text))
    case Tombstone(target) => Some(DeleteMessage(target))
    case Reaction(target, key, remove) => Some(React(target, key, remove))
    case Pin(target, remove) => Some(PinMessage(target, remove))
    case _ => None
  }

  lemma {:induction false} BodiesSayWhatWasAsked(c: Command, body: Body)
    ensures BodyOf(c) == body <==> CommandOf(body) == Some(c)
  {
  }

  /** Who asks: the authority readers share, and the state pinning is asked of. */
  datatype Actor = Actor(identity: Id, authority: View.Authority, state: Redactions.State)

  /// Pinning is tested against the state, by the gate's own spelling.
  predicate Permitted(c: Command, actor: Actor, placement: View.Placement) {
    if c.PinMessage? then
      Capabilities.HoldsAt(actor.state.holds, actor.identity, "moderate", placement.channel, placement.category)
      || actor.state.moderatesContent(actor.identity)
    else
      actor.authority.mayPost(actor.identity, placement)
  }

  /// A reader's authority of that state: content moderators, and those who hold
  /// `moderate` at the channel's placement (`permissions.rs`).
  ghost predicate Reads(authority: View.Authority, state: Redactions.State) {
    forall who: Id, p: View.Placement :: authority.mayModerateNow(who, p) <==> Redactions.Moderates(state, who, p)
  }

  function Said(text: Text, policy: Policy): Option<Refusal> {
    if policy.blank(text) then Some(Empty)
    else if |text| > policy.messageMaxBytes then Some(TooLong)
    else None
  }

  function Attached(attachments: seq<Attachment>, policy: Policy): Option<Refusal> {
    if |attachments| > policy.attachmentMaxCount then Some(TooMany)
    else if exists k :: 0 <= k < |attachments| && attachments[k].byteLen > policy.attachmentMaxBytes then Some(TooLong)
    else None
  }

  function Authorize(c: Command, actor: Actor, sits: Option<View.Placement>, policy: Policy): Option<Refusal> {
    if sits.None? then Some(NoSuchChannel)
    else if !Permitted(c, actor, sits.value) then Some(Refusal.NotPermitted)
    else
      match c
      case SendMessage(text, _, attachments) =>
        if Said(text, policy).Some? then Said(text, policy) else Attached(attachments, policy)
      case EditMessage(_, text) => Said(text, policy)
      case DeleteMessage(_) => None
      case React(_, key, _) =>
        if key == [] then Some(Empty) else if |key| > MAX_REACTION_KEY_BYTES then Some(TooLong) else None
      case PinMessage(_, _) => None
  }

  /// Whether readers keep every attachment's name.
  predicate NamesFit(c: Command) {
    c.SendMessage? ==> forall k :: 0 <= k < |c.attachments| ==> |c.attachments[k].name| <= MAX_ATTACHMENT_NAME_BYTES
  }

  /// What the gate passes, a reader of the same state admits exactly when its
  /// author is a member and every attachment's name fits. The gate bounds the
  /// size and number of attachments and never their names, so a message it
  /// passes can be one every reader refuses.
  lemma {:induction false} GateAgreesUpToNames(
      c: Command, actor: Actor, sits: Option<View.Placement>, policy: Policy, r: Record, limits: Limits.ReaderLimits)
    requires Authorize(c, actor, sits, policy).None? && Reads(actor.authority, actor.state)
    requires r.body == BodyOf(c) && r.author == actor.identity && r.channel == sits.value.channel
    requires actor.authority.verifies(r) && limits.messageMaxBytes == policy.messageMaxBytes
    ensures View.Check(r, sits.value, actor.authority, limits).None?
            <==> actor.authority.isMember(actor.identity) && NamesFit(c)
    ensures actor.authority.isMember(actor.identity) && !NamesFit(c) ==>
              View.Check(r, sits.value, actor.authority, limits) == Some(TooLarge)
  {
  }

  /// What the gate asks beyond the readers' check: text that is not blank, files
  /// within the network's number and size, and a reaction that is something.
  ghost predicate Presentable(c: Command, policy: Policy) {
    && (c.SendMessage? || c.EditMessage? ==> !policy.blank(c.text))
    && (c.SendMessage? ==>
          |c.attachments| <= policy.attachmentMaxCount
          && forall a :: a in c.attachments ==> a.byteLen <= policy.attachmentMaxBytes)
    && (c.React? ==> c.key != [])
  }

  /// The gate is the readers' check and those, attachment names aside: of a member
  /// whose record verifies it passes just what readers would admit and is
  /// presentable.
  lemma {:induction false} GateIsTheReadersCheck(
      c: Command, actor: Actor, sits: View.Placement, policy: Policy, r: Record, limits: Limits.ReaderLimits)
    requires Reads(actor.authority, actor.state) && actor.authority.isMember(actor.identity)
    requires r.body == BodyOf(c) && r.author == actor.identity && r.channel == sits.channel
    requires actor.authority.verifies(r) && limits.messageMaxBytes == policy.messageMaxBytes
    ensures Authorize(c, actor, Some(sits), policy).None? && NamesFit(c)
            <==> View.Check(r, sits, actor.authority, limits).None? && Presentable(c, policy)
  {
    if c.SendMessage? {
      var files := c.attachments;
      assert (forall a :: a in files ==> a.byteLen <= policy.attachmentMaxBytes)
        <==> forall k :: 0 <= k < |files| ==> files[k].byteLen <= policy.attachmentMaxBytes;
    }
  }

  /// What the gate answers, by the first thing wrong.
  ghost predicate RefusedBy(why: Refusal, c: Command, actor: Actor, sits: Option<View.Placement>, policy: Policy) {
    if why.NoSuchChannel? then sits.None?
    else if sits.None? then false
    else if why.NotPermitted? then !Permitted(c, actor, sits.value)
    else if !Permitted(c, actor, sits.value) then false
    else
      var empty := ((c.SendMessage? || c.EditMessage?) && policy.blank(c.text)) || (c.React? && c.key == []);
      var long :=
        || ((c.SendMessage? || c.EditMessage?) && |c.text| > policy.messageMaxBytes)
        || (c.React? && |c.key| > 64);
      var many := c.SendMessage? && |c.attachments| > policy.attachmentMaxCount;
      var big := c.SendMessage? && exists a :: a in c.attachments && a.byteLen > policy.attachmentMaxBytes;
      match why
      case Empty => empty
      case TooMany => !empty && !long && many
      case TooLong => !empty && (long || (!many && big))
  }

  lemma {:induction false} RefusalsMean(
      c: Command, actor: Actor, sits: Option<View.Placement>, policy: Policy, why: Refusal)
    ensures Authorize(c, actor, sits, policy) == Some(why) <==> RefusedBy(why, c, actor, sits, policy)
  {
    if c.SendMessage? {
      var files := c.attachments;
      assert (exists a :: a in files && a.byteLen > policy.attachmentMaxBytes)
        <==> exists k :: 0 <= k < |files| && files[k].byteLen > policy.attachmentMaxBytes;
    }
  }

  /// A message that is nothing but one file, under a name of 256 bytes.
  function LongNamed(): Command {
    SendMessage([0x68, 0x69], None, [Attachment(0, 0, [], Zeros(256))])
  }

  /// The gate passes it and every reader refuses it.
  lemma {:induction false} LongNamesPassTheGate(
      actor: Actor, sits: View.Placement, policy: Policy, r: Record, limits: Limits.ReaderLimits)
    requires actor.authority.mayPost(actor.identity, sits)
    requires actor.authority.isMember(actor.identity) && actor.authority.verifies(r)
    requires r.body == BodyOf(LongNamed()) && r.author == actor.identity && r.channel == sits.channel
    requires policy.messageMaxBytes >= 2 && policy.attachmentMaxCount >= 1 && !policy.blank([0x68, 0x69])
    requires limits.messageMaxBytes == policy.messageMaxBytes
    ensures Authorize(LongNamed(), actor, Some(sits), policy).None?
    ensures View.Check(r, sits, actor.authority, limits) == Some(TooLarge)
  {
    var file := LongNamed().attachments;
    assert |file| == 1 && |file[0].name| == 256;
  }

  /// And what the gate refuses for want of a right, no reader admits.
  lemma {:induction false} UnpermittedIsRefused(
      c: Command, actor: Actor, sits: View.Placement, policy: Policy, r: Record, limits: Limits.ReaderLimits)
    requires !Permitted(c, actor, sits) && Reads(actor.authority, actor.state)
    requires r.body == BodyOf(c) && r.author == actor.identity
    ensures Authorize(c, actor, Some(sits), policy) == Some(Refusal.NotPermitted)
    ensures View.Check(r, sits, actor.authority, limits).Some?
  {
  }
}
