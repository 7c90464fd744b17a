/**
  The stored verdicts against the whole-set pass: exactly when deciding records
  one at a time from the table reaches what `Limits.WithheldOf` reaches.
 */
module Refinement {
  import opened Prelude
  import opened Records
  import opened Limits
  import opened Projection
  import opened Stability

  /// The longest slowmode interval a `u32` of seconds can name.
  const LONGEST_INTERVAL: int := 0xFFFF_FFFF * 1_000

  predicate OneChannel(rs: seq<Record>) {
    forall i, j :: 0 <= i < |rs| && 0 <= j < |rs| ==> rs[i].channel == rs[j].channel
  }

  /// Every record's decision, on the table of the records before it, is the
  /// pass's verdict on it.
  ghost predicate Agrees(rs: seq<Record>, limits: ReaderLimits) {
    forall i: nat | i < |rs| :: DecidedAt(rs, i, limits).Why() == VerdictAt(rs, i, limits)
  }

  function DecidedAt(rs: seq<Record>, i: nat, limits: ReaderLimits): Verdict
    requires i < |rs|
  {
    Decide(Folded(rs[..i], limits), rs[i], limits)
  }

  /// Slowmode without a message ceiling: the pass skips it, a decision does not.
  predicate Covers(limits: ReaderLimits) {
    limits.messageRatePerMinute > 0 || limits.slowmodeSeconds == 0
  }

  /// Two records of one author and class that the two forms read differently:
  /// a repeated reading, or a message at the earliest instant an `i64` names
  /// followed within the longest slowmode.
  predicate Clash(a: Record, b: Record) {
    && SameKey(a, b) && a.Position().Less(b.Position())
    && (a.Class().MessageClass? || a.Class().ReactionClass?)
    && ((a.hlc == b.hlc && a.hlc.wall > I64_MIN)
        || (a.Class().MessageClass? && a.hlc.wall == I64_MIN && b.hlc.wall - I64_MIN < LONGEST_INTERVAL))
  }

  ghost predicate Spaced(rs: seq<Record>) {
    forall a, b | a in rs && b in rs :: !Clash(a, b)
  }

  // ------------------------------------------------------------------------
  // The table holds what was folded
  // ------------------------------------------------------------------------

  lemma {:induction false} InsertFresh(t: Table, r: Record, verdict: Verdict)
    requires !Holds(t, r.id)
    ensures Store(t, r, verdict) == t + [RowOf(r, verdict)]
  {
    var p := (row: Row) => row.id != r.id;
    FilterAll(t, p);
    FilterSame(t, p, (row: Row) => row.id != r.id);
  }

  /// With ids that name records, folding appends one row a record.
  lemma {:induction false} FoldedStep(rs: seq<Record>, limits: ReaderLimits)
    requires Ascending(rs) && FaithfulIds(rs)
    ensures |Folded(rs, limits)| == |rs|
    ensures forall i :: 0 <= i < |rs| ==> Folded(rs, limits)[i].id == rs[i].id
    ensures rs != [] ==>
              Folded(rs, limits)
              == Folded(rs[..|rs| - 1], limits) + [RowOf(rs[|rs| - 1], DecidedAt(rs, |rs| - 1, limits))]
  {
    hide Decide, Store;
    if rs != [] {
      var n := |rs| - 1;
      var front, r := rs[..n], rs[n];
      FoldedStep(front, limits);
      forall i: nat | i < n ensures front[i].id != r.id {
        NoRepeatedId(rs, i, n);
      }
      InsertFresh(Folded(front, limits), r, DecidedAt(rs, n, limits));
    }
  }

  /// How many readings lie after `since` and strictly before `at`.
  function CountBetween(history: seq<Hlc>, since: int, at: Hlc): nat {
    if history == [] then 0
    else CountBetween(history[..|history| - 1], since, at)
         + if history[|history| - 1].wall > since && history[|history| - 1].Less(at) then 1 else 0
  }

  lemma {:induction false} AgreesOnPrefix(rs: seq<Record>, n: nat, limits: ReaderLimits)
    requires n <= |rs| && Agrees(rs, limits)
    ensures Agrees(rs[..n], limits)
  {
    forall i: nat | i < n ensures DecidedAt(rs[..n], i, limits).Why() == VerdictAt(rs[..n], i, limits) {
      assert rs[..n][..i] == rs[..i];
      assert DecidedAt(rs, i, limits).Why() == VerdictAt(rs, i, limits);
    }
  }

  /// Where the two agree so far, the table answers for the pass's history.
  lemma {:induction false} StoredHistory(rs: seq<Record>, r: Record, since: i64, limits: ReaderLimits)
    requires Ascending(rs) && FaithfulIds(rs) && Agrees(rs, limits)
    requires forall x :: x in rs ==> x.channel == r.channel
    ensures CountEarlier(AdmittedSince(Folded(rs, limits), r, since), r.hlc)
            == CountBetween(History(rs, r.author, r.Class(), limits), since, r.hlc)
  {
    hide Decide, Judge, Store, VerdictAt, DecidedAt;
    if rs != [] {
      var n := |rs| - 1;
      var front, x := rs[..n], rs[n];
      AgreesOnPrefix(rs, n, limits);
      StoredHistory(front, r, since, limits);
      FoldedStep(rs, limits);
      assert DecidedAt(rs, n, limits).Why() == VerdictAt(rs, n, limits);
      assert rs == front + [x];
      StoredHistoryStep(front, x, DecidedAt(rs, n, limits), r, since, limits);
    }
  }

  lemma {:induction false} StoredHistoryStep(
      front: seq<Record>, x: Record, verdict: Verdict, r: Record, since: i64, limits: ReaderLimits)
    requires x.channel == r.channel
    requires verdict.Why() == VerdictAt(front + [x], |front|, limits)
    requires CountEarlier(AdmittedSince(Folded(front, limits), r, since), r.hlc)
             == CountBetween(History(front, r.author, r.Class(), limits), since, r.hlc)
    ensures CountEarlier(AdmittedSince(Folded(front, limits) + [RowOf(x, verdict)], r, since), r.hlc)
            == CountBetween(History(front + [x], r.author, r.Class(), limits), since, r.hlc)
  {
    hide Decide, Judge, Folded;
    var t, row, h := Folded(front, limits), RowOf(x, verdict), History(front, r.author, r.Class(), limits);
    var a := AdmittedSince(t, r, since);
    assert (t + [row])[..|t|] == t;
    assert (front + [x])[..|front|] == front;
    HistoryStep(front, x, r.author, r.Class(), limits);
    assert (a + [x.hlc])[..|a|] == a;
    assert (h + [x.hlc])[..|h|] == h;
  }

  // ------------------------------------------------------------------------
  // One decision
  // ------------------------------------------------------------------------

  /// Readings that clash with nothing at `at` are counted alike by both forms.
  lemma {:induction false} CountsCoincide(history: seq<Hlc>, since: i64, at: Hlc)
    requires forall h :: h in history ==> h.Less(at) || h.wall == I64_MIN
    ensures CountBetween(history, since, at) == CountAfter(history, since)
  {
    if history != [] {
      CountsCoincide(history[..|history| - 1], since, at);
      assert history[|history| - 1] in history;
    }
  }

  /// Some reading crowds `at` exactly when one lies after `at` less the interval,
  /// so long as none at the earliest instant is within it.
  lemma {:induction false} CrowdedIsACount(history: seq<Hlc>, at: i64, interval: i64)
    requires interval > 0
    requires forall h :: h in history && h.wall == I64_MIN ==> at - I64_MIN >= interval
    ensures Crowded(history, at, interval) <==> CountAfter(history, SaturatingSub(at, interval)) > 0
  {
    if history != [] {
      var front, h := history[..|history| - 1], history[|history| - 1];
      CrowdedIsACount(front, at, interval);
      assert h in history;
      assert SaturatingSub(at, h.wall) < interval <==> h.wall > SaturatingSub(at, interval);
      if Crowded(history, at, interval) {
        var k :| 0 <= k < |history| && SaturatingSub(at, history[k].wall) < interval;
        assert k < |front| ==> SaturatingSub(at, front[k].wall) < interval;
      }
      if Crowded(front, at, interval) {
        var k :| 0 <= k < |front| && SaturatingSub(at, front[k].wall) < interval;
        assert SaturatingSub(at, history[k].wall) < interval;
      }
    }
  }

  /// What spacing says of the readings admitted before a record.
  lemma {:induction false} HistoryIsSpaced(rs: seq<Record>, n: nat, limits: ReaderLimits)
    requires Ascending(rs) && Spaced(rs) && n < |rs|
    requires rs[n].Class().MessageClass? || rs[n].Class().ReactionClass?
    ensures var h := History(rs[..n], rs[n].author, rs[n].Class(), limits);
            && (forall x :: x in h ==> x.Less(rs[n].hlc) || x.wall == I64_MIN)
            && (rs[n].Class().MessageClass? ==>
                  forall x :: x in h && x.wall == I64_MIN ==> rs[n].hlc.wall - I64_MIN >= LONGEST_INTERVAL)
  {
    var r, before := rs[n], rs[..n];
    var h := History(before, r.author, r.Class(), limits);
    HistoryIsWritten(before, r.author, r.Class(), limits);
    forall x | x in h
      ensures x.Less(r.hlc) || x.wall == I64_MIN
      ensures r.Class().MessageClass? && x.wall == I64_MIN ==> r.hlc.wall - I64_MIN >= LONGEST_INTERVAL
    {
      assert Wrote(before, r.author, r.Class(), x);
      var a :| a in before && a.hlc == x && a.author == r.author && a.Class() == r.Class();
      var i :| 0 <= i < n && before[i] == a;
      assert rs[i].Position().Less(r.Position());
      assert rs[i] in rs && !Clash(a, r);
    }
  }

  /// With the same histories, spaced, and slowmode covered, a decision is the judgement.
  lemma {:induction false} DecisionIsJudgement(t: Table, history: seq<Hlc>, r: Record, limits: ReaderLimits)
    requires Covers(limits)
    requires forall since: i64 :: CountEarlier(AdmittedSince(t, r, since), r.hlc) == CountBetween(history, since, r.hlc)
    requires r.Class().MessageClass? || r.Class().ReactionClass? ==>
               forall h :: h in history ==> h.Less(r.hlc) || h.wall == I64_MIN
    requires r.Class().MessageClass? ==>
               forall h :: h in history && h.wall == I64_MIN ==> r.hlc.wall - I64_MIN >= LONGEST_INTERVAL
    ensures Decide(t, r, limits).Why() == Judge(history, r.Class(), r.hlc.wall, limits)
  {
    if r.Class().MessageClass? || r.Class().ReactionClass? {
      CountsCoincide(history, SaturatingSub(r.hlc.wall, RATE_WINDOW_MILLIS), r.hlc);
      CountsCoincide(history, SaturatingSub(r.hlc.wall, limits.Interval()), r.hlc);
      if r.Class().MessageClass? && limits.slowmodeSeconds > 0 {
        CrowdedIsACount(history, r.hlc.wall, limits.Interval());
      }
    }
  }

  // ------------------------------------------------------------------------
  // The refinement
  // ------------------------------------------------------------------------

  /// Folding decisions over a channel reaches the pass's verdicts.
  lemma {:induction false} IndexAgrees(rs: seq<Record>, limits: ReaderLimits)
    requires Ascending(rs) && FaithfulIds(rs) && OneChannel(rs) && Spaced(rs) && Covers(limits)
    ensures Agrees(rs, limits)
  {
    if rs != [] {
      var n := |rs| - 1;
      var front, r := rs[..n], rs[n];
      IndexAgrees(front, limits);
      forall since: i64
        ensures CountEarlier(AdmittedSince(Folded(front, limits), r, since), r.hlc)
                == CountBetween(History(front, r.author, r.Class(), limits), since, r.hlc)
      {
        StoredHistory(front, r, since, limits);
      }
      if r.Class().MessageClass? || r.Class().ReactionClass? {
        HistoryIsSpaced(rs, n, limits);
      }
      DecisionIsJudgement(Folded(front, limits), History(front, r.author, r.Class(), limits), r, limits);
      AgreesStep(rs, limits);
    }
  }

  lemma {:induction false} AgreesStep(rs: seq<Record>, limits: ReaderLimits)
    requires rs != [] && Agrees(rs[..|rs| - 1], limits)
    requires DecidedAt(rs, |rs| - 1, limits).Why() == VerdictAt(rs, |rs| - 1, limits)
    ensures Agrees(rs, limits)
  {
    hide Decide, Folded, Judge, History;
    var n := |rs| - 1;
    forall i: nat | i < n ensures DecidedAt(rs, i, limits).Why() == VerdictAt(rs, i, limits) {
      assert rs[..n][..i] == rs[..i];
      assert DecidedAt(rs[..n], i, limits).Why() == VerdictAt(rs[..n], i, limits);
    }
  }

  /// What a table refuses, by id.
  function TableRefusals(t: Table): map<Id, Rejection> {
    if t == [] then map[]
    else
      var before, row := TableRefusals(t[..|t| - 1]), t[|t| - 1];
      match row.verdict.Why()
      case None => before
      case Some(why) => before[row.id := why]
  }

  /// Where the verdicts agree, so do the refusals a page is rendered with.
  lemma {:induction false} AgreementIsOfRefusals(rs: seq<Record>, limits: ReaderLimits)
    requires Ascending(rs) && FaithfulIds(rs) && Agrees(rs, limits)
    ensures TableRefusals(Folded(rs, limits)) == Refusals(rs, limits)
  {
    hide DecidedAt, VerdictAt;
    FoldedStep(rs, limits);
    if rs != [] {
      var n := |rs| - 1;
      var front := rs[..n];
      AgreesOnPrefix(rs, n, limits);
      AgreementIsOfRefusals(front, limits);
      var t := Folded(rs, limits);
      assert t[..n] == Folded(front, limits);
      assert DecidedAt(rs, n, limits).Why() == VerdictAt(rs, n, limits);
    }
  }

  // ------------------------------------------------------------------------
  // Neither hypothesis can be dropped
  // ------------------------------------------------------------------------

  /// Any two clashing records, on their own, tell the two forms apart under
  /// some limits that cover slowmode.
  lemma {:induction false} ClashDiverges(a: Record, b: Record) returns (limits: ReaderLimits)
    requires Clash(a, b) && a.channel == b.channel
    ensures Covers(limits) && !Agrees([a, b], limits)
  {
    if a.hlc.wall == I64_MIN {
      limits := ReaderLimits(I64_MAX, I64_MAX, 0, 0, U32_MAX);
    } else {
      limits := ReaderLimits(1, 1, 0, 0, 0);
    }
    var rs := [a, b];
    assert rs[..0] == [] && rs[..1] == [a];
    assert Folded([a], limits) == [RowOf(a, Admitted)] by {
      assert [a][..0] == [];
      assert Decide([], a, limits) == Admitted;
    }
    assert History([a], b.author, b.Class(), limits) == [a.hlc] by {
      assert [a][..0] == [];
      assert Judge([], a.Class(), a.hlc.wall, limits) == None;
    }
    OneReading(a, b, limits);
    assert DecidedAt(rs, 1, limits).Why() != VerdictAt(rs, 1, limits);
  }

  /// A table of one admitted row.
  lemma {:induction false} OneRow(a: Record, b: Record, since: i64)
    requires SameKey(a, b) && a.channel == b.channel
    ensures CountEarlier(AdmittedSince([RowOf(a, Admitted)], b, since), b.hlc)
            == if a.hlc.wall > since && a.hlc.Less(b.hlc) then 1 else 0
    ensures CountAfter([a.hlc], since) == if a.hlc.wall > since then 1 else 0
  {
    var row := RowOf(a, Admitted);
    assert [row][..0] == [] && [a.hlc][..0] == [];
    assert AdmittedSince([row], b, since) == if a.hlc.wall > since then [a.hlc] else [];
  }

  lemma {:induction false} OneReading(a: Record, b: Record, limits: ReaderLimits)
    requires Clash(a, b) && a.channel == b.channel
    requires limits == if a.hlc.wall == I64_MIN then ReaderLimits(I64_MAX, I64_MAX, 0, 0, U32_MAX)
                       else ReaderLimits(1, 1, 0, 0, 0)
    ensures Decide([RowOf(a, Admitted)], b, limits) == Admitted
    ensures Judge([a.hlc], b.Class(), b.hlc.wall, limits).Some?
  {
    OneRow(a, b, SaturatingSub(b.hlc.wall, RATE_WINDOW_MILLIS));
    OneRow(a, b, SaturatingSub(b.hlc.wall, limits.Interval()));
    hide AdmittedSince, CountEarlier, CountAfter;
    if a.hlc.wall == I64_MIN {
      assert SaturatingSub(b.hlc.wall, [a.hlc][0].wall) < limits.Interval();
    }
  }

  ghost predicate AgreesOnEveryPage(rs: seq<Record>) {
    forall p: Record -> bool, limits | Covers(limits) :: Agrees(Filter(rs, p), limits)
  }

  /// A selection of a spaced channel is one.
  lemma {:induction false} SelectionsAreSpaced(rs: seq<Record>, p: Record -> bool)
    requires Ascending(rs) && FaithfulIds(rs) && OneChannel(rs) && Spaced(rs)
    ensures var page := Filter(rs, p); Ascending(page) && FaithfulIds(page) && OneChannel(page) && Spaced(page)
  {
    FilterMembers(rs, p);
    FilterAscending(rs, p);
    FilterFaithful(rs, p);
    var page := Filter(rs, p);
    forall i, j | 0 <= i < |page| && 0 <= j < |page| ensures page[i].channel == page[j].channel {
      assert page[i] in rs && page[j] in rs;
    }
  }

  lemma {:induction false} SpacedAgrees(rs: seq<Record>)
    requires Ascending(rs) && FaithfulIds(rs) && OneChannel(rs) && Spaced(rs)
    ensures AgreesOnEveryPage(rs)
  {
    hide Ascending, FaithfulIds, OneChannel, Spaced, Agrees, Filter, Covers;
    forall p: Record -> bool, limits | Covers(limits) ensures Agrees(Filter(rs, p), limits) {
      SelectionsAreSpaced(rs, p);
      IndexAgrees(Filter(rs, p), limits);
    }
  }

  /// On every selection of a channel's records and under every limits that
  /// cover slowmode the two forms agree, exactly when the channel is spaced.
  lemma {:induction false} SpacingIsExact(rs: seq<Record>)
    requires Ascending(rs) && FaithfulIds(rs) && OneChannel(rs)
    ensures AgreesOnEveryPage(rs) <==> Spaced(rs)
  {
    hide Agrees, Filter, Covers;
    if Spaced(rs) {
      SpacedAgrees(rs);
    } else {
      var a, b :| a in rs && b in rs && Clash(a, b);
      var p := (r: Record) => r == a || r == b;
      var limits := ClashDiverges(a, b);
      FilterMembers(rs, p);
      FilterAscending(rs, p);
      AscendingIsUnique(Filter(rs, p), [a, b]);
    }
  }

  ghost predicate AgreesOnSpaced(limits: ReaderLimits) {
    forall rs | Ascending(rs) && FaithfulIds(rs) && OneChannel(rs) && Spaced(rs) :: Agrees(rs, limits)
  }

  /// And on every spaced channel exactly under the limits that cover slowmode.
  lemma {:induction false} CoveringIsExact(limits: ReaderLimits)
    ensures AgreesOnSpaced(limits) <==> Covers(limits)
  {
    hide Ascending, FaithfulIds, OneChannel, Spaced, Agrees, Covers;
    if Covers(limits) {
      forall rs | Ascending(rs) && FaithfulIds(rs) && OneChannel(rs) && Spaced(rs) ensures Agrees(rs, limits) {
        IndexAgrees(rs, limits);
      }
    } else {
      var rs := UncoveredDisagrees(limits);
    }
  }

  lemma {:induction false} UncoveredDisagrees(limits: ReaderLimits) returns (rs: seq<Record>)
    requires !Covers(limits)
    ensures Ascending(rs) && FaithfulIds(rs) && OneChannel(rs) && Spaced(rs) && !Agrees(rs, limits)
  {
    var a := Record(0, 0, 0, 0, Hlc(0, 0), Tombstone(0), BLANK_SIGNATURE);
    var b := Record(1, 0, 0, 0, Hlc(0, 1), Tombstone(0), BLANK_SIGNATURE);
    rs := [a, b];
    assert Ascending(rs) && FaithfulIds(rs) && OneChannel(rs) && Spaced(rs);
    assert rs[..1] == [a];
    hide Folded, Decide, Judge, History, Covers;
    UncoveredSlowmode(a, b, limits);
    assert DecidedAt(rs, 1, limits).Why() != VerdictAt(rs, 1, limits);
  }

  lemma {:induction false} UncoveredSlowmode(a: Record, b: Record, limits: ReaderLimits)
    requires !Covers(limits) && a.Class().MessageClass? && SameKey(a, b) && a.channel == b.channel
    requires a.hlc == Hlc(0, 0) && b.hlc == Hlc(0, 1)
    ensures Decide(Folded([a], limits), b, limits) == TooSoon
    ensures forall h :: Judge(h, b.Class(), b.hlc.wall, limits) == None
  {
    assert [a][..0] == [];
    assert Decide([], a, limits) == Admitted;
    OneRow(a, b, SaturatingSub(0, limits.Interval()));
    hide AdmittedSince, CountEarlier;
    assert Folded([a], limits) == [RowOf(a, Admitted)];
  }
}
