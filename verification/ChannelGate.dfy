/**
  The writer's gate on channel structure (crates/kols-api/src/authorize.rs), the
  entry a command becomes (crates/kols-node/src/executor.rs), and what readers
  ask of one (crates/kols-core/src/channel.rs). The two sides decide separately.
 */
module ChannelGate {
  import opened Prelude
  import opened Records
  import opened Wire
  import opened ChannelCodec
  import opened Capabilities

  // ------------------------------------------------------------------------
  // The reader's side
  // ------------------------------------------------------------------------

  function Verb(body: EntryBody): string {
    if body.Definition? then "create-channel" else "manage-channel"
  }

  /// Every capability that authorizes an entry, narrowest first, as the entry's
  /// own code spells them. A definition brings its category with it.
  function Acceptable(e: Entry, category: Option<Id>): seq<string> {
    var verb := Verb(e.body);
    match e.body
    case CategoryDefinition(_, _) => ["chat:" + verb + ":*"]
    case CategoryUpdate(_) => ["chat:" + verb + ":cat:" + Hex(e.subject.id), "chat:" + verb + ":*"]
    case _ =>
      var sits := if e.body.Definition? then e.body.category else category;
      ["chat:" + verb + ":" + Hex(e.subject.id)]
      + (match sits case None => [] case Some(c) => ["chat:" + verb + ":cat:" + Hex(c)])
      + ["chat:" + verb + ":*"]
  }

  /// The narrowest of them, for saying what was expected.
  function Required(e: Entry): string {
    var verb := Verb(e.body);
    match e.body
    case CategoryDefinition(_, _) => "chat:" + verb + ":*"
    case CategoryUpdate(_) => "chat:" + verb + ":cat:" + Hex(e.subject.id)
    case Definition(_, Some(c), _, _, _, _) => "chat:" + verb + ":cat:" + Hex(c)
    case _ => "chat:" + verb + ":" + Hex(e.subject.id)
  }

  datatype LogBody = AppEntry(namespace: string, kind: string, required: string, payload: Bytes) | OtherBody

  datatype Refusal =
    | NotAnAppEntry
    | MalformedEntry
    | ForeignNamespace(namespace: string)
    | NotAServer
    | WrongCapability(declared: string, required: string)

  function CHAT(): string {
    "chat"
  }

  function Admit(e: Entry, namespace: string, declared: string, server: bool, category: Option<Id>): Option<Refusal> {
    if namespace != CHAT() then Some(ForeignNamespace(namespace))
    else if !server then Some(NotAServer)
    else if declared !in Acceptable(e, category) then Some(WrongCapability(declared, Required(e)))
    else None
  }

  function FirstHeld(names: seq<string>, holds: Holdings, who: Id): Option<string> {
    if names == [] then None
    else if holds(who, names[0]) then Some(names[0])
    else FirstHeld(names[1..], holds, who)
  }

  /// What an author should declare, from what they hold.
  function Declaration(e: Entry, holds: Holdings, who: Id, category: Option<Id>): Option<string> {
    FirstHeld(Acceptable(e, category), holds, who)
  }

  function ToAppEntry(e: Entry, holds: Holdings, who: Id, category: Option<Id>): Result<LogBody, Refusal> {
    match Declaration(e, holds, who, category)
    case None => Err(WrongCapability("", Required(e)))
    case Some(declared) => Ok(AppEntry(CHAT(), e.body.Kind(), declared, Encode(e)))
  }

  /// Reads a channel entry out of the log, applying every check. `wellNamed` is
  /// what the protocol takes for a namespace and a kind.
  function Read(
      body: LogBody, server: bool, category: Option<Id>, wellNamed: (string, string) -> bool, isKey: Id -> bool)
    : Result<Entry, Refusal>
  {
    match body
    case OtherBody => Err(NotAnAppEntry)
    case AppEntry(namespace, kind, required, payload) =>
      if !wellNamed(namespace, kind) then Err(MalformedEntry)
      else if namespace != CHAT() then Err(ForeignNamespace(namespace))
      else
        match Decode(kind, payload, isKey)
        case Err(_) => Err(MalformedEntry)
        case Ok(e) =>
          if !WithinEntryBounds(e) then Err(MalformedEntry)
          else
            match Admit(e, namespace, required, server, category)
            case Some(refusal) => Err(refusal)
            case None => Ok(e)
  }

  // ------------------------------------------------------------------------
  // The writer's side
  // ------------------------------------------------------------------------

  datatype Command =
    | CreateChannel(name: Text, category: Option<Id>, privacy: Privacy, topic: Text)
    | UpdateChannel(channel: Id, change: ChannelChange)
    | CreateCategory(name: Text, position: u32)
    | UpdateCategory(categoryId: Id, categoryChange: CategoryChange)

  datatype GateRefusal = NoSuchChannel | NotOnThisProfile | NotPermitted | Empty | TooLong

  /** Who asks, in what network: what they hold, where channels sit, and which
      texts are blank once trimmed. */
  datatype Actor = Actor(
    identity: Id, holds: Holdings, server: bool, slowmodeMax: i64, sits: map<Id, Option<Id>>, blank: Text -> bool)

  function Named(actor: Actor, name: Text): Option<GateRefusal> {
    if actor.blank(name) then Some(Empty)
    else if |name| > MAX_NAME_BYTES then Some(TooLong)
    else None
  }

  function CheckChange(actor: Actor, change: ChannelChange): Option<GateRefusal> {
    match change
    case Rename(name) => Named(actor, name)
    case SetTopic(topic) => if |topic| > MAX_TOPIC_BYTES then Some(TooLong) else None
    case SetSlowmode(seconds) => if seconds > actor.slowmodeMax then Some(TooLong) else None
    case _ => None
  }

  /// Whether a command's own capability check passes.
  predicate Permitted(c: Command, actor: Actor) {
    match c
    case CreateChannel(_, category, _, _) => HoldsInScope(actor.holds, actor.identity, "create-channel", category)
    case UpdateChannel(channel, _) =>
      channel in actor.sits && HoldsAt(actor.holds, actor.identity, "manage-channel", channel, actor.sits[channel])
    case CreateCategory(_, _) => HoldsInScope(actor.holds, actor.identity, "manage-channel", None)
    case UpdateCategory(category, _) => HoldsInScope(actor.holds, actor.identity, "manage-channel", Some(category))
  }

  function Authorize(c: Command, actor: Actor): Option<GateRefusal> {
    if !actor.server then Some(NotOnThisProfile)
    else if c.UpdateChannel? && c.channel !in actor.sits then Some(NoSuchChannel)
    else if !Permitted(c, actor) then Some(GateRefusal.NotPermitted)
    else
      match c
      case CreateChannel(name, _, _, topic) =>
        if Named(actor, name).Some? then Named(actor, name)
        else if |topic| > MAX_TOPIC_BYTES then Some(TooLong) else None
      case UpdateChannel(_, change) => CheckChange(actor, change)
      case CreateCategory(name, _) => Named(actor, name)
      case UpdateCategory(_, change) => if change.RenameCategory? then Named(actor, change.name) else None
  }

  /// The entry a command becomes, a new id minted for what it creates.
  function Written(c: Command, minted: Id): Entry {
    match c
    case CreateChannel(name, category, privacy, topic) =>
      Entry(OfChannel(minted), Definition(name, category, TextChannel, privacy, topic, 0))
    case UpdateChannel(channel, change) => Entry(OfChannel(channel), Update(change))
    case CreateCategory(name, position) => Entry(OfCategory(minted), CategoryDefinition(name, position))
    case UpdateCategory(category, change) => Entry(OfCategory(category), CategoryUpdate(change))
  }

  /// Where the executor says what the entry is about sits.
  function Sits(c: Command, actor: Actor): Option<Id> {
    match c
    case CreateChannel(_, category, _, _) => category
    case UpdateChannel(channel, _) => if channel in actor.sits then actor.sits[channel] else None
    case CreateCategory(_, _) => None
    case UpdateCategory(category, _) => Some(category)
  }

  // ------------------------------------------------------------------------
  // They agree
  // ------------------------------------------------------------------------

  lemma {:induction false} FirstHeldMeans(names: seq<string>, holds: Holdings, who: Id)
    ensures FirstHeld(names, holds, who).Some? <==> exists n :: n in names && holds(who, n)
    ensures FirstHeld(names, holds, who).Some? ==>
              FirstHeld(names, holds, who).value in names && holds(who, FirstHeld(names, holds, who).value)
  {
    if names != [] && !holds(who, names[0]) {
      FirstHeldMeans(names[1..], holds, who);
    }
  }

  /// The scopes an entry may be authorized at.
  function Scopes(e: Entry, category: Option<Id>): seq<Scope> {
    match e.body
    case CategoryDefinition(_, _) => [Network]
    case CategoryUpdate(_) => [Category(e.subject.id), Network]
    case _ =>
      match if e.body.Definition? then e.body.category else category
      case None => [Channel(e.subject.id), Network]
      case Some(c) => [Channel(e.subject.id), Category(c), Network]
  }

  function Names(scopes: seq<Scope>, verb: string): seq<string> {
    if scopes == [] then [] else [Name(scopes[0], verb)] + Names(scopes[1..], verb)
  }

  /// The entry's own spelling is the one grants are named and resolved by.
  lemma {:induction false} SpellingsAgree(e: Entry, category: Option<Id>)
    ensures Acceptable(e, category) == Names(Scopes(e, category), Verb(e.body))
  {
    hide Hex, Verb;
    var verb := Verb(e.body);
    Spelled(e.subject.id, verb);
    var scopes := Scopes(e, category);
    Listed(scopes, verb);
    var sits := if e.body.Definition? then e.body.category else category;
    if !e.body.AboutCategory() && sits.Some? {
      Spelled(sits.value, verb);
    }
  }

  lemma {:induction false} Spelled(id: Id, verb: string)
    ensures "chat:" + verb + ":*" == Name(Network, verb)
    ensures "chat:" + verb + ":cat:" + Hex(id) == Name(Category(id), verb)
    ensures "chat:" + verb + ":" + Hex(id) == Name(Channel(id), verb)
  {
    hide Hex;
    assert "chat:" + verb + ":*" == "chat:" + verb + ":" + "*";
    assert "chat:" + verb + ":cat:" + Hex(id) == "chat:" + verb + ":" + ("cat:" + Hex(id));
  }

  lemma {:induction false} Listed(scopes: seq<Scope>, verb: string)
    ensures |scopes| == 1 ==> Names(scopes, verb) == [Name(scopes[0], verb)]
    ensures |scopes| == 2 ==> Names(scopes, verb) == [Name(scopes[0], verb), Name(scopes[1], verb)]
    ensures |scopes| == 3 ==>
              Names(scopes, verb) == [Name(scopes[0], verb), Name(scopes[1], verb), Name(scopes[2], verb)]
  {
    hide Name;
    if |scopes| == 2 {
      assert Names(scopes[1..], verb) == [Name(scopes[1], verb)];
    } else if |scopes| == 3 {
      assert Names(scopes[1..][1..], verb) == [Name(scopes[2], verb)];
      assert Names(scopes[1..], verb) == [Name(scopes[1], verb), Name(scopes[2], verb)];
    }
  }

  lemma {:induction false} NamesMeans(scopes: seq<Scope>, verb: string)
    ensures forall n :: n in Names(scopes, verb) <==> exists s :: s in scopes && n == Name(s, verb)
  {
    hide Name;
    if scopes != [] {
      NamesMeans(scopes[1..], verb);
      assert scopes == [scopes[0]] + scopes[1..];
    }
  }

  /// A declaration exists exactly where one of the entry's scopes is held.
  lemma {:induction false} DeclarationMeans(e: Entry, holds: Holdings, who: Id, category: Option<Id>)
    ensures Declaration(e, holds, who, category).Some? <==>
            exists s :: s in Scopes(e, category) && holds(who, Name(s, Verb(e.body)))
    ensures Declaration(e, holds, who, category).Some? ==>
            Declaration(e, holds, who, category).value in Acceptable(e, category)
            && holds(who, Declaration(e, holds, who, category).value)
  {
    hide Name, Scopes, Acceptable, Verb;
    FirstHeldMeans(Acceptable(e, category), holds, who);
    SpellingsAgree(e, category);
    NamesMeans(Scopes(e, category), Verb(e.body));
  }

  /// And the narrowest held is the one declared: the channel's own, then its
  /// category's, then the network's.
  lemma {:induction false} TheNarrowestIsDeclared(
      channel: Id, change: ChannelChange, holds: Holdings, who: Id, category: Option<Id>)
    ensures Declaration(Entry(OfChannel(channel), Update(change)), holds, who, category)
            == if holds(who, Name(Channel(channel), "manage-channel")) then
                 Some(Name(Channel(channel), "manage-channel"))
               else if category.Some? && holds(who, Name(Category(category.value), "manage-channel")) then
                 Some(Name(Category(category.value), "manage-channel"))
               else if holds(who, Name(Network, "manage-channel")) then
                 Some(Name(Network, "manage-channel"))
               else None
  {
    hide Name, Acceptable;
    var e := Entry(OfChannel(channel), Update(change));
    SpellingsAgree(e, category);
    Listed(Scopes(e, category), "manage-channel");
    var names := Names(Scopes(e, category), "manage-channel");
    FirstOfUpToThree(names, holds, who);
  }

  lemma {:induction false} FirstOfUpToThree(names: seq<string>, holds: Holdings, who: Id)
    requires 2 <= |names| <= 3
    ensures FirstHeld(names, holds, who)
            == if holds(who, names[0]) then Some(names[0])
               else if holds(who, names[1]) then Some(names[1])
               else if |names| == 3 && holds(who, names[2]) then Some(names[2])
               else None
  {
    assert names[1..][0] == names[1] && (|names| == 3 ==> names[1..][1..][0] == names[2]);
    assert FirstHeld(names[1..][1..], holds, who)
        == if |names| == 3 && holds(who, names[2]) then Some(names[2]) else None by {
      assert |names| == 3 ==> names[1..][1..][1..] == [];
    }
  }

  /// What a refused entry is told it needed is one of what would have done: the
  /// first, or for a channel made in a category the category's.
  lemma {:induction false} RequiredIsAcceptable(e: Entry, category: Option<Id>)
    ensures Required(e)
            == Acceptable(e, category)[if e.body.Definition? && e.body.category.Some? then 1 else 0]
  {
    hide Hex, Verb;
  }

  /// For a change, or anything to a category, the gate's capability check passes
  /// exactly when the entry has a declaration. A new channel's entry has one in
  /// just one case more: a grant naming the channel before it exists.
  lemma {:induction false} PermittedMeansDeclarable(c: Command, actor: Actor, minted: Id)
    requires c.UpdateChannel? ==> c.channel in actor.sits
    ensures var e := Written(c, minted);
            Declaration(e, actor.holds, actor.identity, Sits(c, actor)).Some?
            <==> Permitted(c, actor)
                 || (c.CreateChannel? && actor.holds(actor.identity, Name(Channel(minted), "create-channel")))
  {
    hide Name, Acceptable;
    var e := Written(c, minted);
    var scopes := Scopes(e, Sits(c, actor));
    DeclarationMeans(e, actor.holds, actor.identity, Sits(c, actor));
    assert scopes[|scopes| - 1] == Network && Network in scopes;
    if |scopes| > 1 {
      assert scopes[0] in scopes && scopes[1] in scopes;
    }
  }

  /// What a command names its subject, where it names it.
  function NameGiven(c: Command): Option<Text> {
    match c
    case CreateChannel(name, _, _, _) => Some(name)
    case UpdateChannel(_, Rename(name)) => Some(name)
    case CreateCategory(name, _) => Some(name)
    case UpdateCategory(_, RenameCategory(name)) => Some(name)
    case _ => None
  }

  /// The gate's bounds are the readers' own, and three of its own besides: a
  /// channel it knows, a name that is not blank, and the network's slowmode.
  lemma {:induction false} GateIsTheReadersBounds(c: Command, actor: Actor, minted: Id)
    ensures Authorize(c, actor).None? <==>
            && actor.server && Permitted(c, actor) && WithinEntryBounds(Written(c, minted))
            && (NameGiven(c).Some? ==> !actor.blank(NameGiven(c).value))
            && (c.UpdateChannel? && c.change.SetSlowmode? ==> c.change.seconds <= actor.slowmodeMax)
    ensures c.UpdateChannel? && c.channel !in actor.sits ==> Authorize(c, actor).Some?
  {
    hide Name, HoldsAt, HoldsInScope;
  }

  /// The bounds, in bytes.
  ghost predicate EntryFits(e: Entry) {
    && (e.subject.OfCategory? <==> e.body.CategoryDefinition? || e.body.CategoryUpdate?)
    && (e.body.Definition? ==> |e.body.name| <= 256 && |e.body.topic| <= 1024)
    && (e.body.Update? && e.body.change.Rename? ==> |e.body.change.name| <= 256)
    && (e.body.Update? && e.body.change.SetTopic? ==> |e.body.change.topic| <= 1024)
    && (e.body.Rotation? ==> |e.body.reason| <= 256)
    && (e.body.CategoryDefinition? ==> |e.body.name| <= 256)
    && (e.body.CategoryUpdate? && e.body.categoryChange.RenameCategory? ==> |e.body.categoryChange.name| <= 256)
  }

  lemma {:induction false} BoundsMean(e: Entry)
    ensures WithinEntryBounds(e) <==> EntryFits(e)
  {
  }

  /// Why the gate refuses, by the first thing wrong.
  ghost predicate GateRefuses(why: GateRefusal, c: Command, actor: Actor) {
    var unknown := c.UpdateChannel? && c.channel !in actor.sits;
    var blank := NameGiven(c).Some? && actor.blank(NameGiven(c).value);
    var long :=
      || (NameGiven(c).Some? && |NameGiven(c).value| > 256)
      || (c.CreateChannel? && |c.topic| > 1024)
      || (c.UpdateChannel? && c.change.SetTopic? && |c.change.topic| > 1024)
      || (c.UpdateChannel? && c.change.SetSlowmode? && c.change.seconds > actor.slowmodeMax);
    match why
    case NotOnThisProfile => !actor.server
    case NoSuchChannel => actor.server && unknown
    case NotPermitted => actor.server && !unknown && !Permitted(c, actor)
    case Empty => actor.server && Permitted(c, actor) && blank
    case TooLong => actor.server && Permitted(c, actor) && !blank && long
  }

  lemma {:induction false} GateRefusalsMean(c: Command, actor: Actor, why: GateRefusal)
    ensures Authorize(c, actor) == Some(why) <==> GateRefuses(why, c, actor)
  {
    hide Name, HoldsAt, HoldsInScope;
  }

  /// The command an entry carries out, read back off it.
  function CommandOf(e: Entry): Option<Command> {
    match e.body
    case Definition(name, category, TextChannel, privacy, topic, 0) =>
      Some(CreateChannel(name, category, privacy, topic))
    case Update(change) => Some(UpdateChannel(e.subject.id, change))
    case CategoryDefinition(name, position) => Some(CreateCategory(name, position))
    case CategoryUpdate(change) => Some(UpdateCategory(e.subject.id, change))
    case _ => None
  }

  /// The entry written says what was asked, of what was asked or of what is new.
  lemma {:induction false} EntriesSayWhatWasAsked(c: Command, minted: Id)
    ensures CommandOf(Written(c, minted)) == Some(c)
    ensures Written(c, minted).subject.id ==
            if c.UpdateChannel? then c.channel else if c.UpdateCategory? then c.categoryId else minted
  {
  }

  /// What the types say of a command's texts.
  predicate TypedCommand(c: Command, isKey: Id -> bool) {
    Typed(Written(c, 0).body, isKey)
  }

  /// Whatever the gate passes becomes an entry every reader applies, as written.
  lemma {:induction false} GateAgreesWithReaders(
      c: Command, actor: Actor, minted: Id, wellNamed: (string, string) -> bool, isKey: Id -> bool)
    requires Authorize(c, actor).None? && TypedCommand(c, isKey)
    requires forall tag: byte :: wellNamed(CHAT(), KindOf(tag))
    ensures var e := Written(c, minted);
            var body := ToAppEntry(e, actor.holds, actor.identity, Sits(c, actor));
            body.Ok? && Read(body.value, actor.server, Sits(c, actor), wellNamed, isKey) == Ok(e)
  {
    hide Name, Acceptable, Encode, Decode, Declaration, Typed, Permitted, KindOf, CHAT;
    var e := Written(c, minted);
    assert e.body == Written(c, 0).body;
    PermittedMeansDeclarable(c, actor, minted);
    DeclarationMeans(e, actor.holds, actor.identity, Sits(c, actor));
    EntriesRoundTrip(e, isKey);
    assert wellNamed(CHAT(), KindOf(e.body.Tag()));
  }

  // ------------------------------------------------------------------------
  // What readers accept
  // ------------------------------------------------------------------------

  lemma {:induction false} VerbsArePlain(body: EntryBody)
    ensures ':' !in Verb(body)
  {
  }

  /// Readers refuse every declaration but the few that authorize the entry: a
  /// grant for another verb, another channel or another category never does.
  lemma {:induction false} OnlyItsOwnScopesAuthorize(e: Entry, scope: Scope, verb: string, category: Option<Id>)
    requires ':' !in verb
    ensures Admit(e, CHAT(), Name(scope, verb), true, category).None?
            <==> verb == Verb(e.body) && scope in Scopes(e, category)
  {
    hide Name, Scopes, Acceptable, Verb;
    SpellingsAgree(e, category);
    NamesMeans(Scopes(e, category), Verb(e.body));
    VerbsArePlain(e.body);
    if Name(scope, verb) in Acceptable(e, category) {
      var s :| s in Scopes(e, category) && Name(scope, verb) == Name(s, Verb(e.body));
      NamesAreInjective(scope, verb, s, Verb(e.body));
    }
  }

  /// A change written while its channel sat in one category and read while it
  /// sits in another is refused exactly when it was declared at the first.
  lemma {:induction false} MovedChannelsKeepOtherGrants(
      channel: Id, change: ChannelChange, scope: Scope, before: Option<Id>, after: Option<Id>)
    requires var e := Entry(OfChannel(channel), Update(change));
             Admit(e, CHAT(), Name(scope, Verb(e.body)), true, before).None?
    ensures var e := Entry(OfChannel(channel), Update(change));
            Admit(e, CHAT(), Name(scope, Verb(e.body)), true, after).None? <==> (scope.Category? ==> after == before)
  {
    hide Admit, Name;
    var e := Entry(OfChannel(channel), Update(change));
    VerbsArePlain(e.body);
    OnlyItsOwnScopesAuthorize(e, scope, Verb(e.body), before);
    OnlyItsOwnScopesAuthorize(e, scope, Verb(e.body), after);
  }

  /// Why a body is not read as an entry, by the first thing wrong.
  ghost predicate ReadRefuses(
      why: Refusal, body: LogBody, server: bool, category: Option<Id>, wellNamed: (string, string) -> bool,
      isKey: Id -> bool)
  {
    if body.OtherBody? then why.NotAnAppEntry?
    else
      var named := wellNamed(body.namespace, body.kind);
      var read := Decode(body.kind, body.payload, isKey);
      var sound := read.Ok? && EntryFits(read.value);
      match why
      case NotAnAppEntry => false
      case ForeignNamespace(namespace) => named && namespace == body.namespace && namespace != "chat"
      case MalformedEntry => !named || (body.namespace == "chat" && !sound)
      case NotAServer => named && body.namespace == "chat" && sound && !server
      case WrongCapability(declared, required) =>
        named && body.namespace == "chat" && sound && server
        && declared == body.required && declared !in Acceptable(read.value, category)
        && required == Required(read.value)
  }

  lemma {:induction false} ReadRefusalsMean(
      why: Refusal, body: LogBody, server: bool, category: Option<Id>, wellNamed: (string, string) -> bool,
      isKey: Id -> bool)
    ensures Read(body, server, category, wellNamed, isKey) == Err(why)
            <==> ReadRefuses(why, body, server, category, wellNamed, isKey)
  {
    hide Acceptable, Required, Decode, EntryFits;
    if body.AppEntry? && Decode(body.kind, body.payload, isKey).Ok? {
      BoundsMean(Decode(body.kind, body.payload, isKey).value);
    }
  }

  /// Nothing is read from a network without channels, or from bytes with a
  /// second reading: an entry read is within bounds, agrees with itself, and is
  /// the only entry of its payload.
  lemma {:induction false} ReadEntriesAreCanonical(
      body: LogBody, server: bool, category: Option<Id>, wellNamed: (string, string) -> bool, isKey: Id -> bool)
    requires Read(body, server, category, wellNamed, isKey).Ok?
    ensures var e := Read(body, server, category, wellNamed, isKey).value;
            && server && body.AppEntry? && body.namespace == "chat" && body.kind == e.body.Kind()
            && body.payload == Encode(e) && EntryFits(e) && body.required in Acceptable(e, category)
  {
    hide Acceptable, Encode, DecodePayload, KindOf;
    AcceptedEntriesReEmit(body.payload, isKey);
    BoundsMean(Read(body, server, category, wellNamed, isKey).value);
  }
}
