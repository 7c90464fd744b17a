/**
  What a reader ends up holding, refusing and showing, said of the records' own
  fields: no tables, no passes, no named checks.
 */
module Shown {
  import opened Prelude
  import opened Records
  import opened Limits
  import opened Stability
  import opened Pacing
  import opened Render
  import opened View
  import opened Convergence

  // ------------------------------------------------------------------------
  // Held by the view
  // ------------------------------------------------------------------------

  /// A reader holds a delivered record exactly if it is of the channel, verifies,
  /// is a member's, keeps every bound, and its author may say that kind of thing.
  lemma {:induction false} HoldsTheAdmissible(
      batches: seq<seq<Record>>, placement: Placement, authority: Authority, limits: ReaderLimits, r: Record)
    requires FaithfulIds(Delivered(batches))
    ensures r in AdmitAll(batches, placement, authority, limits) <==>
            && r in Delivered(batches)
            && r.channel == placement.channel
            && authority.verifies(r)
            && authority.isMember(r.author)
            && Fits(r.body, limits.messageMaxBytes)
            && Entitled(r, placement, authority)
  {
    hide Check, FaithfulIds, Rendering, Refusals, AdmitAll, Delivered, Fits, Entitled;
    ReadersConverge(batches, batches, placement, authority, limits, 0);
  }

  // ------------------------------------------------------------------------
  // Refused by rate
  // ------------------------------------------------------------------------

  /// Counted as a message: by what it is, or for a kind not known by its number.
  predicate OfMessages(body: Body) {
    body.Message? || body.Edit? || body.Tombstone? || (body.Unknown? && 1 <= body.kind <= 63)
  }

  predicate OfReactions(body: Body) {
    body.Reaction? || body.Pin? || (body.Unknown? && 64 <= body.kind <= 127)
  }

  /// Control is 128 to 191, and the rest is not yet allocated.
  lemma {:induction false} ClassesMean(body: Body)
    ensures body.Class().MessageClass? <==> OfMessages(body)
    ensures body.Class().ReactionClass? <==> OfReactions(body)
    ensures body.Class().ControlClass? <==> body.Redaction? || (body.Unknown? && 128 <= body.kind <= 191)
    ensures body.Class().ReservedClass? <==> body.Unknown? && (body.kind == 0 || body.kind >= 192)
  {
  }

  /// A message of the same author that stands, less than the slowmode before it.
  ghost predicate TooNear(rs: seq<Record>, i: nat, limits: ReaderLimits)
    requires i < |rs|
  {
    exists j: nat :: j < i && rs[j].author == rs[i].author && OfMessages(rs[j].body) && VerdictAt(rs, j, limits).None?
                     && rs[i].hlc.wall - rs[j].hlc.wall < limits.slowmodeSeconds * 1_000
  }

  /// The messages, or the reactions, of one author that stand before `rs[i]` and
  /// claim a time in the minute up to it. The earliest instant there is counts for
  /// nothing.
  ghost function InTheMinute(rs: seq<Record>, i: nat, limits: ReaderLimits, ofClass: Body -> bool): set<nat>
    requires i < |rs|
  {
    set j: nat | j < i && rs[j].author == rs[i].author && ofClass(rs[j].body) && VerdictAt(rs, j, limits).None?
                 && rs[j].hlc.wall > rs[i].hlc.wall - 60_000 && rs[j].hlc.wall > -0x8000_0000_0000_0000
  }

  /// Why a record is refused, by the numbers the network sets and the records
  /// that stand before it.
  ghost predicate RefusedFor(rs: seq<Record>, i: nat, limits: ReaderLimits, why: Rejection)
    requires i < |rs|
  {
    var messages, reactions := OfMessages(rs[i].body), OfReactions(rs[i].body);
    var slow := messages && limits.messageRatePerMinute > 0 && limits.slowmodeSeconds > 0 && TooNear(rs, i, limits);
    match why
    case Slowmode => slow
    case TooFast =>
      && !slow
      && (|| (messages && limits.messageRatePerMinute > 0
              && |InTheMinute(rs, i, limits, OfMessages)| >= limits.messageRatePerMinute)
          || (reactions && limits.reactionRatePerMinute > 0
              && |InTheMinute(rs, i, limits, OfReactions)| >= limits.reactionRatePerMinute))
    case _ => false
  }

  lemma {:induction false} NearIsTooSoon(rs: seq<Record>, i: nat, limits: ReaderLimits)
    requires i < |rs|
    ensures TooSoonAfter(rs, i, limits)
            <==> OfMessages(rs[i].body) && limits.slowmodeSeconds > 0 && TooNear(rs, i, limits)
  {
    hide VerdictAt, Body.Class, OfMessages;
    ClassesMean(rs[i].body);
    forall j: nat | j < i ensures rs[j].Class().MessageClass? <==> OfMessages(rs[j].body) {
      ClassesMean(rs[j].body);
    }
  }

  lemma {:induction false} WindowIsTheMinute(rs: seq<Record>, i: nat, limits: ReaderLimits)
    requires i < |rs|
    ensures OfMessages(rs[i].body) ==> InWindow(rs, i, limits) == InTheMinute(rs, i, limits, OfMessages)
    ensures OfReactions(rs[i].body) ==> InWindow(rs, i, limits) == InTheMinute(rs, i, limits, OfReactions)
  {
    hide VerdictAt, Body.Class, OfMessages, OfReactions;
    ClassesMean(rs[i].body);
    forall j: nat | j < i
      ensures rs[j].Class().MessageClass? <==> OfMessages(rs[j].body)
      ensures rs[j].Class().ReactionClass? <==> OfReactions(rs[j].body)
    {
      ClassesMean(rs[j].body);
    }
  }

  /// The verdict on every record of every set.
  lemma {:induction false} RefusedExactly(rs: seq<Record>, i: nat, limits: ReaderLimits)
    requires i < |rs|
    ensures forall why :: VerdictAt(rs, i, limits) == Some(why) <==> RefusedFor(rs, i, limits, why)
  {
    hide VerdictAt, TooSoonAfter, TooNear, InWindow, InTheMinute, OfMessages, OfReactions, Body.Class;
    VerdictMeans(rs, i, limits);
    ClassesMean(rs[i].body);
    NearIsTooSoon(rs, i, limits);
    WindowIsTheMinute(rs, i, limits);
  }

  // ------------------------------------------------------------------------
  // Shown
  // ------------------------------------------------------------------------

  /// Dated past what the clock and the allowed skew reach. A sum no `i64` holds
  /// reaches everything.
  predicate Ahead(r: Record, limits: ReaderLimits, now: i64) {
    var horizon := now + limits.maxFutureSkewMillis;
    -0x8000_0000_0000_0000 <= horizon <= 0x7FFF_FFFF_FFFF_FFFF && r.hlc.wall > horizon
  }

  /// What a reader leaves out: what the rates refuse, and what is dated ahead.
  lemma {:induction false} LeftOut(rs: seq<Record>, i: nat, limits: ReaderLimits, now: i64)
    requires Ascending(rs) && FaithfulIds(rs) && i < |rs|
    ensures Hidden(limits, now, Refusals(rs, limits).Keys)(rs[i])
            <==> (exists why :: RefusedFor(rs, i, limits, why)) || Ahead(rs[i], limits, now)
  {
    hide Ascending, FaithfulIds, Refusals, VerdictAt, RefusedFor;
    RefusalsByRecord(rs, limits);
    RefusedExactly(rs, i, limits);
    assert Recorded(Refusals(rs, limits), rs[i].id, VerdictAt(rs, i, limits));
    match VerdictAt(rs, i, limits) {
      case None =>
      case Some(why) => assert RefusedFor(rs, i, limits, why);
    }
  }

  /// Some rendered message is this record's.
  ghost predicate Displays(out: seq<RenderedMessage>, m: Record) {
    exists k :: 0 <= k < |out| && out[k].id == m.id && out[k].author == m.author && out[k].hlc == m.hlc
  }

  lemma {:induction false} RenderingDisplays(rs: seq<Record>, hidden: Record -> bool, m: Record)
    requires FaithfulIds(rs) && m in rs
    ensures Displays(Rendering(rs, hidden), m) <==> m.body.Message? && !hidden(m)
  {
    hide RenderOne, RenderEach;
    var shown := Filter(rs, IsShown(hidden));
    ShownAreMessages(rs, hidden);
    FilterMembers(rs, IsShown(hidden));
    var out := Rendering(rs, hidden);
    assert out == RenderEach(shown, rs, hidden);
    forall k | 0 <= k < |shown|
      ensures out[k].id == shown[k].id && out[k].author == shown[k].author && out[k].hlc == shown[k].hlc
      ensures shown[k] in rs && shown[k].body.Message? && !hidden(shown[k])
    {
      IdentityIsKept(shown[k], rs, hidden);
      assert shown[k] in shown;
    }
    if m.body.Message? && !hidden(m) {
      assert m in shown;
      var k :| 0 <= k < |shown| && shown[k] == m;
    }
  }

  /// A message is shown exactly if no rate refuses it and it is not dated ahead.
  lemma {:induction false} ShowsWhatStands(rs: seq<Record>, i: nat, limits: ReaderLimits, now: i64)
    requires Ascending(rs) && FaithfulIds(rs) && i < |rs|
    ensures Displays(Rendering(rs, Hidden(limits, now, Refusals(rs, limits).Keys)), rs[i]) <==>
            && rs[i].body.Message?
            && !(exists why :: RefusedFor(rs, i, limits, why))
            && !Ahead(rs[i], limits, now)
  {
    hide Ascending, FaithfulIds, Refusals, RefusedFor, Hidden, Displays, Rendering, Ahead;
    LeftOut(rs, i, limits, now);
    RenderingDisplays(rs, Hidden(limits, now, Refusals(rs, limits).Keys), rs[i]);
  }
}
