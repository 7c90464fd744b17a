/**
  Judging a moderator as of the governance head a redaction cites
  (crates/kols-core/src/permissions.rs): the chain behind a head, replayed once
  and remembered.
 */
module Redactions {
  import opened Prelude
  import opened Records
  import Capabilities
  import Limits
  import Render
  import View

  /** An entry of the governance log: what it follows, and what it says. */
  datatype LogEntry = LogEntry(parent: Option<Id>, said: Bytes)

  /** The entries held, by hash. */
  type GovernanceLog = map<Id, LogEntry>

  /** What replay knows: who holds which chat capability, who moderates at large. */
  datatype State = State(holds: Capabilities.Holdings, moderatesContent: Id -> bool)

  type Replay = seq<LogEntry> -> Option<State>

  predicate Moderates(state: State, who: Id, placement: View.Placement) {
    state.moderatesContent(who)
    || Capabilities.HoldsAt(state.holds, who, "moderate", placement.channel, placement.category)
  }

  /// A parent's hash is inside its child, so no entry is its own ancestor:
  /// somewhere there is a depth every step back lowers.
  ghost predicate Acyclic(log: GovernanceLog, depth: Id -> nat) {
    forall h :: h in log && log[h].parent.Some? ==> depth(log[h].parent.value) < depth(h)
  }

  // ------------------------------------------------------------------------
  // The chain behind a head
  // ------------------------------------------------------------------------

  /// The ancestry of a head, oldest first, where all of it is held.
  ghost function Ancestry(log: GovernanceLog, head: Id, depth: Id -> nat): Option<seq<LogEntry>>
    requires Acyclic(log, depth)
    decreases depth(head)
  {
    if head !in log then None
    else if log[head].parent.None? then Some([log[head]])
    else
      match Ancestry(log, log[head].parent.value, depth)
      case None => None
      case Some(chain) => Some(chain + [log[head]])
  }

  /// From an entry with no parent, by parent links, to the head.
  ghost predicate IsAncestry(log: GovernanceLog, head: Id, chain: seq<LogEntry>, hashes: seq<Id>) {
    && |hashes| == |chain| > 0 && hashes[|chain| - 1] == head
    && (forall k :: 0 <= k < |chain| ==> hashes[k] in log && log[hashes[k]] == chain[k])
    && chain[0].parent.None?
    && (forall k :: 0 < k < |chain| ==> chain[k].parent == Some(hashes[k - 1]))
  }

  /// There is one chain to a head and the walk finds it, or there is none.
  lemma {:induction false} AncestryIsExact(
      log: GovernanceLog, head: Id, chain: seq<LogEntry>, hashes: seq<Id>, depth: Id -> nat)
    requires Acyclic(log, depth) && IsAncestry(log, head, chain, hashes)
    ensures Ancestry(log, head, depth) == Some(chain)
    decreases depth(head)
  {
    var n := |chain| - 1;
    if n == 0 {
      assert chain == [log[head]];
    } else {
      assert chain[n].parent == Some(hashes[n - 1]);
      AncestryIsExact(log, hashes[n - 1], chain[..n], hashes[..n], depth);
      assert chain == chain[..n] + [chain[n]];
    }
  }

  lemma {:induction false} AncestryIsFound(log: GovernanceLog, head: Id, depth: Id -> nat) returns (hashes: seq<Id>)
    requires Acyclic(log, depth) && Ancestry(log, head, depth).Some?
    ensures IsAncestry(log, head, Ancestry(log, head, depth).value, hashes)
    decreases depth(head)
  {
    if log[head].parent.None? {
      hashes := [head];
    } else {
      hashes := AncestryIsFound(log, log[head].parent.value, depth);
      hashes := hashes + [head];
    }
  }

  function Reversed(s: seq<LogEntry>): (r: seq<LogEntry>)
    ensures |r| == |s|
  {
    if s == [] then [] else Reversed(s[1..]) + [s[0]]
  }

  lemma {:induction false} ReversedAppend(s: seq<LogEntry>, x: LogEntry)
    ensures Reversed(s + [x]) == [x] + Reversed(s)
  {
    if s != [] {
      ReversedAppend(s[1..], x);
      assert (s + [x])[1..] == s[1..] + [x];
    }
  }

  /// The walk of the source: from the head back, then turned round. It ends on
  /// any acyclic log.
  method ChainTo(log: GovernanceLog, head: Id, ghost depth: Id -> nat) returns (chain: Option<seq<LogEntry>>)
    requires Acyclic(log, depth)
    ensures chain == Ancestry(log, head, depth)
  {
    var walked: seq<LogEntry> := [];
    var cursor := Some(head);
    ghost var whole := Ancestry(log, head, depth);
    assert whole.Some? ==> whole.value + Reversed([]) == whole.value;
    while cursor.Some?
      invariant Ancestry(log, head, depth)
                == match cursor
                   case None => Some(Reversed(walked))
                   case Some(h) => (match Ancestry(log, h, depth)
                                    case None => None
                                    case Some(c) => Some(c + Reversed(walked)))
      decreases if cursor.Some? then depth(cursor.value) + 1 else 0
    {
      if cursor.value !in log {
        return None;
      }
      var entry := log[cursor.value];
      ReversedAppend(walked, entry);
      ghost var before := if entry.parent.Some? then Ancestry(log, entry.parent.value, depth) else None;
      assert before.Some? ==> before.value + [entry] + Reversed(walked) == before.value + ([entry] + Reversed(walked));
      cursor := entry.parent;
      walked := walked + [entry];
    }
    chain := Some(Reversed(walked));
  }

  // ------------------------------------------------------------------------
  // Judging
  // ------------------------------------------------------------------------

  /// The state as of a head: `None` where it is not held or does not replay.
  ghost function StateAt(log: GovernanceLog, replay: Replay, head: Id, depth: Id -> nat): Option<State>
    requires Acyclic(log, depth)
  {
    match Ancestry(log, head, depth)
    case None => None
    case Some(chain) => replay(chain)
  }

  /// Whether someone held moderation authority as of a head.
  ghost predicate ModeratedAt(
      log: GovernanceLog, replay: Replay, who: Id, placement: View.Placement, head: Id, depth: Id -> nat)
    requires Acyclic(log, depth)
  {
    var state := StateAt(log, replay, head, depth);
    state.Some? && Moderates(state.value, who, placement)
  }

  /** A question about a head. */
  datatype Query = Query(who: Id, placement: View.Placement, head: Id)

  class LogAuthority {
    const log: GovernanceLog
    const replay: Replay
    ghost const depth: Id -> nat
    /// States already replayed, by head, and heads that could not be.
    var replayed: map<Id, Option<State>>

    ghost predicate Valid()
      reads this
    {
      Acyclic(log, depth)
      && forall h :: h in replayed ==> replayed[h] == StateAt(log, replay, h, depth)
    }

    constructor (log: GovernanceLog, replay: Replay, ghost depth: Id -> nat)
      requires Acyclic(log, depth)
      ensures Valid() && this.log == log && this.replay == replay && this.depth == depth && replayed == map[]
    {
      this.log, this.replay, this.depth := log, replay, depth;
      replayed := map[];
    }

    /// Answers from the cache, filling it; the answer is the one without it.
    method MayModerateAt(who: Id, placement: View.Placement, head: Id) returns (may: bool)
      requires Valid()
      modifies this
      ensures Valid() && may == ModeratedAt(log, replay, who, placement, head, depth)
      ensures replayed.Keys == old(replayed.Keys) + {head}
    {
      if head !in replayed {
        var chain := ChainTo(log, head, depth);
        replayed := replayed[head := if chain.None? then None else replay(chain.value)];
      }
      var state := replayed[head];
      may := state.Some? && Moderates(state.value, who, placement);
    }

    /// However many questions are asked and in whatever order, remembering
    /// changes none of the answers.
    method Answers(queries: seq<Query>) returns (answers: seq<bool>)
      requires Valid()
      modifies this
      ensures Valid() && |answers| == |queries|
      ensures forall k :: 0 <= k < |queries| ==>
                answers[k] == ModeratedAt(log, replay, queries[k].who, queries[k].placement, queries[k].head, depth)
    {
      hide Moderates;
      answers := [];
      for k := 0 to |queries|
        invariant Valid() && |answers| == k
        invariant forall j :: 0 <= j < k ==>
                    answers[j] == ModeratedAt(log, replay, queries[j].who, queries[j].placement, queries[j].head, depth)
      {
        var may := MayModerateAt(queries[k].who, queries[k].placement, queries[k].head);
        answers := answers + [may];
      }
    }
  }

  // ------------------------------------------------------------------------
  // Standing
  // ------------------------------------------------------------------------

  /// A log that has only gained entries.
  predicate Extends(later: GovernanceLog, log: GovernanceLog) {
    forall h :: h in log ==> h in later && later[h] == log[h]
  }

  /// Whatever a log gains, a chain it already held is the chain it was.
  lemma {:induction false} HeldAncestryStands(log: GovernanceLog, later: GovernanceLog, head: Id, depth: Id -> nat)
    requires Acyclic(later, depth) && Acyclic(log, depth) && Extends(later, log)
    requires Ancestry(log, head, depth).Some?
    ensures Ancestry(later, head, depth) == Ancestry(log, head, depth)
    decreases depth(head)
  {
    if log[head].parent.Some? {
      HeldAncestryStands(log, later, log[head].parent.value, depth);
    }
  }

  /// A verdict changes as a log grows only where some of the chain was missing,
  /// and there it was a refusal: nothing appended reaches back.
  lemma {:induction false} VerdictsStand(
      log: GovernanceLog, later: GovernanceLog, replay: Replay, who: Id, placement: View.Placement, head: Id,
      depth: Id -> nat)
    requires Acyclic(later, depth) && Acyclic(log, depth) && Extends(later, log)
    ensures ModeratedAt(log, replay, who, placement, head, depth)
            ==> ModeratedAt(later, replay, who, placement, head, depth)
    ensures ModeratedAt(later, replay, who, placement, head, depth)
            != ModeratedAt(log, replay, who, placement, head, depth)
            ==> Ancestry(log, head, depth).None?
  {
    hide Moderates;
    if Ancestry(log, head, depth).Some? {
      HeldAncestryStands(log, later, head, depth);
    }
  }

  // ------------------------------------------------------------------------
  // Moved channels
  // ------------------------------------------------------------------------

  /// Authority over a channel wherever it sits: everywhere, at the channel, or
  /// at large.
  predicate Wide(state: State, who: Id, channel: Id) {
    || state.moderatesContent(who)
    || state.holds(who, Capabilities.Name(Capabilities.Channel(channel), "moderate"))
    || state.holds(who, Capabilities.Name(Capabilities.Network, "moderate"))
  }

  /// Authority at the category a channel sits in.
  predicate AtCategory(state: State, who: Id, category: Option<Id>) {
    category.Some? && state.holds(who, Capabilities.Name(Capabilities.Category(category.value), "moderate"))
  }

  /// A reader asks about the cited head, but where the channel sits it takes from
  /// its own log, as that stands now. So a redaction admitted once is admitted
  /// again under every longer log that leaves the channel where it was, its
  /// author demoted or not; and under one that has moved it, exactly if its
  /// author had wide authority at the head, or authority at the new category too.
  lemma {:induction false} RedactionsStand(
      r: Record, category: Option<Id>, moved: Option<Id>, limits: Limits.ReaderLimits, limits': Limits.ReaderLimits,
      was: View.Authority, now: View.Authority, log: GovernanceLog, later: GovernanceLog,
      replay: Replay, depth: Id -> nat)
    requires Acyclic(later, depth) && Acyclic(log, depth) && Extends(later, log)
    requires forall who, p, head :: was.mayModerateAt(who, p, head) == ModeratedAt(log, replay, who, p, head, depth)
    requires forall who, p, head :: now.mayModerateAt(who, p, head) == ModeratedAt(later, replay, who, p, head, depth)
    requires now.verifies == was.verifies
    requires r.body.Redaction? && View.Check(r, View.Placement(r.channel, category), was, limits).None?
    ensures StateAt(log, replay, r.body.governanceHead, depth).Some?
    ensures var state := StateAt(log, replay, r.body.governanceHead, depth).value;
            View.Check(r, View.Placement(r.channel, moved), now, limits')
            == if !now.isMember(r.author) then Some(NotAMember)
               else if moved == category || Wide(state, r.author, r.channel) || AtCategory(state, r.author, moved) then
                 None
               else Some(NotAModerator)
  {
    var head := r.body.governanceHead;
    assert was.mayModerateAt(r.author, View.Placement(r.channel, category), head);
    assert now.mayModerateAt(r.author, View.Placement(r.channel, moved), head)
        == ModeratedAt(later, replay, r.author, View.Placement(r.channel, moved), head, depth);
    HeldAncestryStands(log, later, head, depth);
  }

  /// It stands wherever the channel is moved exactly if its author's authority
  /// at the head was wide, and its author is a member still.
  lemma {:induction false} RedactionsStandEverywhere(
      r: Record, category: Option<Id>, limits: Limits.ReaderLimits, was: View.Authority, now: View.Authority,
      log: GovernanceLog, later: GovernanceLog, replay: Replay, depth: Id -> nat)
    requires Acyclic(later, depth) && Acyclic(log, depth) && Extends(later, log)
    requires forall who, p, head :: was.mayModerateAt(who, p, head) == ModeratedAt(log, replay, who, p, head, depth)
    requires forall who, p, head :: now.mayModerateAt(who, p, head) == ModeratedAt(later, replay, who, p, head, depth)
    requires now.verifies == was.verifies
    requires r.body.Redaction? && View.Check(r, View.Placement(r.channel, category), was, limits).None?
    ensures StateAt(log, replay, r.body.governanceHead, depth).Some?
    ensures (forall moved: Option<Id> :: View.Check(r, View.Placement(r.channel, moved), now, limits).None?)
            <==> now.isMember(r.author)
                 && Wide(StateAt(log, replay, r.body.governanceHead, depth).value, r.author, r.channel)
  {
    hide View.Check, Wide, StateAt, ModeratedAt;
    forall moved: Option<Id>
      ensures StateAt(log, replay, r.body.governanceHead, depth).Some?
      ensures var state := StateAt(log, replay, r.body.governanceHead, depth).value;
              View.Check(r, View.Placement(r.channel, moved), now, limits).None?
              <==> now.isMember(r.author)
                   && (moved == category || Wide(state, r.author, r.channel) || AtCategory(state, r.author, moved))
    {
      RedactionsStand(r, category, moved, limits, limits, was, now, log, later, replay, depth);
    }
    var nowhere: Option<Id> := None;
    LooseIsWide(r, category, limits, was, log, replay, depth);
    assert View.Check(r, View.Placement(r.channel, nowhere), now, limits).None? ==>
        nowhere == category || Wide(StateAt(log, replay, r.body.governanceHead, depth).value, r.author, r.channel);
  }

  /// Of a channel in no category, only wide authority moderates.
  lemma {:induction false} LooseIsWide(
      r: Record, category: Option<Id>, limits: Limits.ReaderLimits, was: View.Authority,
      log: GovernanceLog, replay: Replay, depth: Id -> nat)
    requires Acyclic(log, depth)
    requires forall who, p, head :: was.mayModerateAt(who, p, head) == ModeratedAt(log, replay, who, p, head, depth)
    requires r.body.Redaction? && View.Check(r, View.Placement(r.channel, category), was, limits).None?
    ensures StateAt(log, replay, r.body.governanceHead, depth).Some?
    ensures category.None? ==> Wide(StateAt(log, replay, r.body.governanceHead, depth).value, r.author, r.channel)
  {
    assert was.mayModerateAt(r.author, View.Placement(r.channel, category), r.body.governanceHead);
  }

  /// What one member may do: moderate in one category.
  function OnlyAt(category: Id): Capabilities.Holdings {
    (who: Id, name: string) => name == Capabilities.Name(Capabilities.Category(category), "moderate")
  }

  function Nobody(): Id -> bool {
    (who: Id) => false
  }

  lemma {:induction false} OnlyAtMeans(category: Id, who: Id, channel: Id, at: Option<Id>)
    ensures Moderates(State(OnlyAt(category), Nobody()), who, View.Placement(channel, at)) <==> at == Some(category)
  {
    hide Capabilities.Name;
    var name := Capabilities.Name(Capabilities.Category(category), "moderate");
    if name == Capabilities.Name(Capabilities.Channel(channel), "moderate") {
      Capabilities.NamesAreInjective(
        Capabilities.Category(category), "moderate", Capabilities.Channel(channel), "moderate");
    }
    if name == Capabilities.Name(Capabilities.Network, "moderate") {
      Capabilities.NamesAreInjective(Capabilities.Category(category), "moderate", Capabilities.Network, "moderate");
    }
    if at.Some? && name == Capabilities.Name(Capabilities.Category(at.value), "moderate") {
      Capabilities.NamesAreInjective(
        Capabilities.Category(category), "moderate", Capabilities.Category(at.value), "moderate");
    }
  }

  /// A log of one entry, on replay of which they may.
  function OneEntry(head: Id): GovernanceLog {
    map[head := LogEntry(None, [])]
  }

  function Appoints(category: Id): Replay {
    (chain: seq<LogEntry>) => Some(State(OnlyAt(category), Nobody()))
  }

  function NoDepth(): Id -> nat {
    (h: Id) => 0
  }

  lemma {:induction false} AppointedMeans(head: Id, category: Id)
    ensures Acyclic(OneEntry(head), NoDepth())
    ensures StateAt(OneEntry(head), Appoints(category), head, NoDepth()) == Some(State(OnlyAt(category), Nobody()))
  {
  }

  lemma {:induction false} AppointedModerates(head: Id, category: Id, who: Id, channel: Id, at: Option<Id>)
    requires Acyclic(OneEntry(head), NoDepth())
    ensures ModeratedAt(OneEntry(head), Appoints(category), who, View.Placement(channel, at), head, NoDepth())
            <==> at == Some(category)
  {
    hide Moderates, StateAt, Acyclic;
    AppointedMeans(head, category);
    OnlyAtMeans(category, who, channel, at);
  }

  /// A message and a moderator's redaction of it, later and in the same channel.
  predicate Hides(r: Record, m: Record) {
    m.body.Message? && r.body.Redaction? && r.body.target == m.id && r.channel == m.channel
    && m.Position().Less(r.Position())
  }

  function NothingHidden(): Record -> bool {
    (r: Record) => false
  }

  /// The message, as a reader shows a channel holding the two at one placement.
  function Shown(
      m: Record, r: Record, placement: View.Placement, authority: View.Authority, limits: Limits.ReaderLimits)
    : Render.RenderedMessage
    requires Hides(r, m)
  {
    Render.RenderOne(m, View.Accepted([m, r], placement, authority, limits), NothingHidden())
  }

  lemma {:induction false} ShownByTheCheck(
      m: Record, r: Record, placement: View.Placement, authority: View.Authority, limits: Limits.ReaderLimits)
    requires Hides(r, m) && View.Check(m, placement, authority, limits).None?
    ensures Shown(m, r, placement, authority, limits).redacted
            <==> View.Check(r, placement, authority, limits).None?
  {
    hide View.Check, Render.RenderOne, Render.Latest, Filter;
    var p := View.Passes(placement, authority, limits);
    var accepted := View.Accepted([m, r], placement, authority, limits);
    FilterMembers([m, r], p);
    assert m in [m, r] && r in [m, r];
    Render.HidingIsByAnyRecord(m, accepted, NothingHidden());
    Render.LatestMeans(accepted, Render.RedactionsOf(m, NothingHidden()));
    if p(r) {
      var k :| 0 <= k < |accepted| && accepted[k] == r;
    }
    forall k | 0 <= k < |accepted| && !p(r) ensures accepted[k] == m {
      assert accepted[k] in accepted;
    }
  }

  /// Where both authors are members and the message is in order, the check turns
  /// on the redactor's authority.
  lemma {:induction false} ModerationDecides(
      m: Record, r: Record, placement: View.Placement, authority: View.Authority, limits: Limits.ReaderLimits)
    requires Hides(r, m) && placement.channel == m.channel && authority.verifies(m) && authority.verifies(r)
    requires authority.isMember(m.author) && authority.isMember(r.author) && authority.mayPost(m.author, placement)
    requires WithinBounds(m.body, limits.messageMaxBytes)
    ensures View.Check(m, placement, authority, limits).None?
    ensures View.Check(r, placement, authority, limits)
            == if authority.mayModerateAt(r.author, placement, r.body.governanceHead) then None else Some(NotAModerator)
  {
  }

  /// The input that fails: a moderator of one category hides a message in a channel
  /// there, and the channel is moved to another. Nothing about the cited head has
  /// changed, and every reader shows the message again.
  lemma {:induction false} MovingAChannelUnhides(
      m: Record, r: Record, here: Id, there: Id, rest: View.Authority, limits: Limits.ReaderLimits)
    returns (authority: View.Authority, log: GovernanceLog, replay: Replay, depth: Id -> nat)
    requires Hides(r, m) && here != there && rest.verifies(m) && rest.verifies(r)
    requires rest.isMember(m.author) && rest.isMember(r.author) && WithinBounds(m.body, limits.messageMaxBytes)
    requires rest.mayPost(m.author, View.Placement(m.channel, Some(here)))
    requires rest.mayPost(m.author, View.Placement(m.channel, Some(there)))
    ensures Acyclic(log, depth)
    ensures authority == rest.(mayModerateAt := authority.mayModerateAt)
    ensures forall who, p, head ::
              authority.mayModerateAt(who, p, head) == ModeratedAt(log, replay, who, p, head, depth)
    ensures View.Check(r, View.Placement(m.channel, Some(here)), authority, limits).None?
    ensures View.Check(r, View.Placement(m.channel, Some(there)), authority, limits) == Some(NotAModerator)
    ensures Shown(m, r, View.Placement(m.channel, Some(here)), authority, limits).redacted
    ensures !Shown(m, r, View.Placement(m.channel, Some(there)), authority, limits).redacted
  {
    var head := r.body.governanceHead;
    log, replay, depth := OneEntry(head), Appoints(here), NoDepth();
    AppointedMeans(head, here);
    AppointedModerates(head, here, r.author, m.channel, Some(here));
    AppointedModerates(head, here, r.author, m.channel, Some(there));
    hide Shown, Hides, StateAt, ModeratedAt, Acyclic, WithinBounds, View.Check, OneEntry, Appoints, NoDepth;
    authority := rest.(mayModerateAt :=
                         (who: Id, p: View.Placement, head: Id) => ModeratedAt(log, replay, who, p, head, depth));
    var at, moved := View.Placement(m.channel, Some(here)), View.Placement(m.channel, Some(there));
    ModerationDecides(m, r, at, authority, limits);
    ModerationDecides(m, r, moved, authority, limits);
    ShownByTheCheck(m, r, at, authority, limits);
    ShownByTheCheck(m, r, moved, authority, limits);
  }
}
