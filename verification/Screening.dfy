/**
  Two answers to what a reader refuses: the index folds every record that is
  stored, the view only those that pass its check
  (crates/kols-node/src/store.rs, crates/kols-node/src/executor.rs).
 */
module Screening {
  import opened Prelude
  import opened Records
  import opened Limits
  import opened Stability
  import opened Projection
  import opened Refinement
  import opened Render
  import opened View
  import opened Convergence

  /// Under some rates, the first of these can be counted against the second:
  /// same author and class, earlier, within the window or the longest slowmode.
  predicate Reaches(a: Record, b: Record) {
    && SameKey(a, b) && a.Position().Less(b.Position())
    && ((b.Class().MessageClass? && SaturatingSub(b.hlc.wall, a.hlc.wall) < LONGEST_INTERVAL)
        || ((b.Class().MessageClass? || b.Class().ReactionClass?)
            && a.hlc.wall > SaturatingSub(b.hlc.wall, RATE_WINDOW_MILLIS)))
  }

  /// Nothing turned away reaches anything accepted.
  ghost predicate Quiet(rs: seq<Record>, p: Record -> bool) {
    forall a, b :: a in rs && b in rs && !p(a) && p(b) ==> !Reaches(a, b)
  }

  // ------------------------------------------------------------------------
  // Quiet rejects change no verdict
  // ------------------------------------------------------------------------

  /// Two histories a record cannot tell apart.
  predicate Alike(h: seq<Hlc>, k: seq<Hlc>, r: Record, limits: ReaderLimits) {
    && CountAfter(h, SaturatingSub(r.hlc.wall, RATE_WINDOW_MILLIS))
       == CountAfter(k, SaturatingSub(r.hlc.wall, RATE_WINDOW_MILLIS))
    && (r.Class().MessageClass? ==>
          (Crowded(h, r.hlc.wall, limits.Interval()) <==> Crowded(k, r.hlc.wall, limits.Interval())))
  }

  lemma {:induction false} AlikeGrows(h: seq<Hlc>, k: seq<Hlc>, x: Hlc, r: Record, limits: ReaderLimits)
    requires Alike(h, k, r, limits)
    ensures Alike(h + [x], k + [x], r, limits)
    ensures x.wall <= SaturatingSub(r.hlc.wall, RATE_WINDOW_MILLIS)
            && (r.Class().MessageClass? ==> SaturatingSub(r.hlc.wall, x.wall) >= limits.Interval())
            ==> Alike(h + [x], k, r, limits)
  {
    hide CountAfter, Crowded;
    var floor := SaturatingSub(r.hlc.wall, RATE_WINDOW_MILLIS);
    CountGrows(h, x, floor);
    CountGrows(k, x, floor);
    CrowdGrows(h, x, r.hlc.wall, limits.Interval());
    CrowdGrows(k, x, r.hlc.wall, limits.Interval());
  }

  lemma {:induction false} CountGrows(h: seq<Hlc>, x: Hlc, floor: int)
    ensures CountAfter(h + [x], floor) == CountAfter(h, floor) + if x.wall > floor then 1 else 0
  {
    assert (h + [x])[..|h|] == h;
  }

  lemma {:induction false} CrowdGrows(h: seq<Hlc>, x: Hlc, at: i64, interval: i64)
    ensures Crowded(h + [x], at, interval) <==> Crowded(h, at, interval) || SaturatingSub(at, x.wall) < interval
  {
    var more := h + [x];
    assert more[|h|] == x && forall k :: 0 <= k < |h| ==> more[k] == h[k];
  }

  /// Where verdicts are kept so far and nothing turned away reaches `r`, the two
  /// histories are alike to it.
  lemma {:induction false} HistoriesAlike(front: seq<Record>, p: Record -> bool, r: Record, limits: ReaderLimits)
    requires KeepsVerdicts(front, p, limits)
    requires r.Class().MessageClass? || r.Class().ReactionClass?
    requires forall a :: a in front && !p(a) ==> !Counts(a, r)
    ensures Alike(
      History(front, r.author, r.Class(), limits), History(Filter(front, p), r.author, r.Class(), limits), r, limits)
  {
    hide Judge, Alike, VerdictAt, VerdictAmong;
    if front == [] {
      AlikeToItself(History([], r.author, r.Class(), limits), r, limits);
    } else {
      var n := |front| - 1;
      var before, x := front[..n], front[n];
      KeptByThePrefix(front, p, n, limits);
      assert front == before + [x];
      HistoriesAlike(before, p, r, limits);
      HistoryStep(before, x, r.author, r.Class(), limits);
      var h, k := History(before, r.author, r.Class(), limits), History(Filter(before, p), r.author, r.Class(), limits);
      AlikeGrows(h, k, x.hlc, r, limits);
      if p(x) {
        HistoryStep(Filter(before, p), x, r.author, r.Class(), limits);
        SameVerdict(front, p, limits);
      } else if SameKey(x, r) {
        assert x in front && !Counts(x, r);
        NotCounted(x, r, limits);
      }
    }
  }

  /// Whether one record can be counted against another that comes after it.
  predicate Counts(a: Record, r: Record) {
    && SameKey(a, r)
    && (a.hlc.wall > SaturatingSub(r.hlc.wall, RATE_WINDOW_MILLIS)
        || (r.Class().MessageClass? && SaturatingSub(r.hlc.wall, a.hlc.wall) < LONGEST_INTERVAL))
  }

  lemma {:induction false} NotCounted(a: Record, r: Record, limits: ReaderLimits)
    requires SameKey(a, r) && !Counts(a, r)
    ensures a.hlc.wall <= SaturatingSub(r.hlc.wall, RATE_WINDOW_MILLIS)
    ensures r.Class().MessageClass? ==> SaturatingSub(r.hlc.wall, a.hlc.wall) >= limits.Interval()
  {
  }

  lemma {:induction false} AlikeToItself(h: seq<Hlc>, r: Record, limits: ReaderLimits)
    ensures Alike(h, h, r, limits)
  {
  }

  lemma {:induction false} KeptByThePrefix(rs: seq<Record>, p: Record -> bool, n: nat, limits: ReaderLimits)
    requires n <= |rs| && KeepsVerdicts(rs, p, limits)
    ensures KeepsVerdicts(rs[..n], p, limits)
  {
    hide Judge, History;
    forall i: nat | i < n && p(rs[i])
      ensures VerdictAmong(rs[..n], p, i, limits) == VerdictAt(rs[..n], i, limits)
    {
      assert rs[..n][..i] == rs[..i];
      assert VerdictAmong(rs, p, i, limits) == VerdictAt(rs, i, limits);
    }
  }

  lemma {:induction false} SameVerdict(rs: seq<Record>, p: Record -> bool, limits: ReaderLimits)
    requires rs != [] && p(rs[|rs| - 1]) && KeepsVerdicts(rs, p, limits)
    ensures var front, x := rs[..|rs| - 1], rs[|rs| - 1];
            Judge(History(front, x.author, x.Class(), limits), x.Class(), x.hlc.wall, limits)
            == Judge(History(Filter(front, p), x.author, x.Class(), limits), x.Class(), x.hlc.wall, limits)
  {
    hide Judge, History;
    var n := |rs| - 1;
    assert VerdictAmong(rs, p, n, limits) == VerdictAt(rs, n, limits);
  }

  lemma {:induction false} AlikeJudges(h: seq<Hlc>, k: seq<Hlc>, r: Record, limits: ReaderLimits)
    requires r.Class().MessageClass? || r.Class().ReactionClass? ==> Alike(h, k, r, limits)
    ensures Judge(h, r.Class(), r.hlc.wall, limits) == Judge(k, r.Class(), r.hlc.wall, limits)
  {
    hide CountAfter, Crowded;
  }

  /// In a quiet store every accepted record has one verdict, whether what was
  /// turned away is folded or not.
  lemma {:induction false} QuietKeepsVerdicts(rs: seq<Record>, p: Record -> bool, limits: ReaderLimits)
    requires Ascending(rs) && Quiet(rs, p)
    ensures KeepsVerdicts(rs, p, limits)
  {
    hide Judge, Alike, Ascending, Reaches;
    if rs != [] {
      var n := |rs| - 1;
      var front, r := rs[..n], rs[n];
      assert rs == front + [r];
      AscendingPrefix(rs, n);
      QuietKeepsVerdicts(front, p, limits);
      if p(r) {
        forall a | a in front && !p(a) && (r.Class().MessageClass? || r.Class().ReactionClass?) ensures !Counts(a, r) {
          EarlierReaches(rs, a);
          assert !Reaches(a, r);
        }
        if r.Class().MessageClass? || r.Class().ReactionClass? {
          HistoriesAlike(front, p, r, limits);
        }
        AlikeJudges(
          History(front, r.author, r.Class(), limits),
          History(Filter(front, p), r.author, r.Class(), limits), r, limits);
      }
      KeptWithTheLast(rs, p, limits);
    }
  }

  lemma {:induction false} EarlierReaches(rs: seq<Record>, a: Record)
    requires Ascending(rs) && rs != [] && a in rs[..|rs| - 1]
    ensures var r := rs[|rs| - 1];
            (r.Class().MessageClass? || r.Class().ReactionClass?) && Counts(a, r) ==> Reaches(a, r)
  {
    FrontHoldsTheRest(rs);
  }

  lemma {:induction false} KeptWithTheLast(rs: seq<Record>, p: Record -> bool, limits: ReaderLimits)
    requires rs != [] && KeepsVerdicts(rs[..|rs| - 1], p, limits)
    requires p(rs[|rs| - 1]) ==> VerdictAmong(rs, p, |rs| - 1, limits) == VerdictAt(rs, |rs| - 1, limits)
    ensures KeepsVerdicts(rs, p, limits)
  {
    hide Judge, History;
    var n := |rs| - 1;
    forall i: nat | i < n && p(rs[i]) ensures VerdictAmong(rs, p, i, limits) == VerdictAt(rs, i, limits) {
      assert rs[..n][..i] == rs[..i];
      assert VerdictAmong(rs[..n], p, i, limits) == VerdictAt(rs[..n], i, limits);
    }
  }

  // ------------------------------------------------------------------------
  // And only quiet ones
  // ------------------------------------------------------------------------

  /// The index and the view refuse the same of what the view accepts.
  ghost predicate AgreesOnAccepted(stored: seq<Record>, p: Record -> bool, limits: ReaderLimits) {
    forall r :: r in stored && p(r) ==>
      (r.id in Refusals(stored, limits) <==> r.id in Refusals(Filter(stored, p), limits))
  }

  lemma {:induction false} QuietAgrees(stored: seq<Record>, p: Record -> bool, limits: ReaderLimits)
    requires Ascending(stored) && FaithfulIds(stored) && Quiet(stored, p)
    ensures AgreesOnAccepted(stored, p, limits)
    ensures Refusals(Filter(stored, p), limits) ==
            map id | id in Refusals(stored, limits) && Kept(stored, p, id) :: Refusals(stored, limits)[id]
  {
    hide Refusals, Filter, Ascending, FaithfulIds, Quiet, KeepsVerdicts;
    QuietKeepsVerdicts(stored, p, limits);
    KeptVerdictsAreKeptRefusals(stored, p, limits);
    forall r | r in stored && p(r) ensures Kept(stored, p, r.id) {
      var i :| 0 <= i < |stored| && stored[i] == r;
    }
  }

  /// The same limits at other rates. The check reads none of the three.
  function AtRates(limits: ReaderLimits, messages: i64, reactions: i64, slowmode: u32): ReaderLimits {
    limits.(messageRatePerMinute := messages, reactionRatePerMinute := reactions, slowmodeSeconds := slowmode)
  }

  lemma {:induction false} AlwaysAlone(b: Record, limits: ReaderLimits)
    requires limits.messageRatePerMinute > 0 && limits.reactionRatePerMinute > 0
    ensures Refusals([b], limits) == map[]
  {
    assert [b][..0] == [];
    assert History([], b.author, b.Class(), limits) == [];
  }

  /// Of two records where one reaches the other, some rates admit the first and
  /// refuse the second for it.
  lemma {:induction false} ReachingRefuses(a: Record, b: Record, limits: ReaderLimits)
    returns (m: i64, n: i64, s: u32)
    requires Reaches(a, b)
    ensures m > 0 && n > 0
    ensures b.id in Refusals([a, b], AtRates(limits, m, n, s))
  {
    if a.hlc.wall > SaturatingSub(b.hlc.wall, RATE_WINDOW_MILLIS) {
      m, n, s := 1, 1, 0;
    } else {
      m, n, s := I64_MAX, I64_MAX, U32_MAX;
    }
    var at := AtRates(limits, m, n, s);
    var rs := [a, b];
    assert rs[..1] == [a] && [a][..0] == [];
    assert History([a], b.author, b.Class(), at) == [a.hlc] by {
      assert Judge([], a.Class(), a.hlc.wall, at) == None;
    }
    JudgedByOne(a, b, at);
  }

  lemma {:induction false} JudgedByOne(a: Record, b: Record, at: ReaderLimits)
    requires Reaches(a, b)
    requires if a.hlc.wall > SaturatingSub(b.hlc.wall, RATE_WINDOW_MILLIS)
             then at.messageRatePerMinute == at.reactionRatePerMinute == 1 && at.slowmodeSeconds == 0
             else at.messageRatePerMinute == at.reactionRatePerMinute == I64_MAX && at.slowmodeSeconds == U32_MAX
    ensures Judge([a.hlc], b.Class(), b.hlc.wall, at).Some?
  {
    assert [a.hlc][..0] == [];
    assert SaturatingSub(b.hlc.wall, [a.hlc][0].wall) < at.Interval() || at.slowmodeSeconds == 0;
  }

  /// On every selection of what is stored and at all rates.
  ghost predicate IndexAndViewAgree(
      stored: seq<Record>, placement: Placement, authority: Authority, limits: ReaderLimits)
  {
    forall q: Record -> bool, m: i64, n: i64, s: u32 ::
      AgreesOnAccepted(
        Filter(stored, q), Passes(placement, authority, AtRates(limits, m, n, s)), AtRates(limits, m, n, s))
  }

  lemma {:induction false} CheckReadsNoRate(
      r: Record, placement: Placement, authority: Authority, limits: ReaderLimits, m: i64, n: i64, s: u32)
    ensures Passes(placement, authority, AtRates(limits, m, n, s))(r) == Passes(placement, authority, limits)(r)
  {
  }

  lemma {:induction false} QuietSelection(
      stored: seq<Record>, q: Record -> bool, placement: Placement, authority: Authority, limits: ReaderLimits,
      m: i64, n: i64, s: u32)
    requires Quiet(stored, Passes(placement, authority, limits))
    ensures Quiet(Filter(stored, q), Passes(placement, authority, AtRates(limits, m, n, s)))
  {
    hide Reaches, Passes;
    FilterMembers(stored, q);
    forall r
      ensures Passes(placement, authority, AtRates(limits, m, n, s))(r) == Passes(placement, authority, limits)(r)
    {
      CheckReadsNoRate(r, placement, authority, limits, m, n, s);
    }
  }

  function Either(a: Record, b: Record): Record -> bool {
    (r: Record) => r == a || r == b
  }

  /// Index and view refuse the same of what the view accepts - on every selection
  /// of the store, at all rates - exactly when nothing the check turned away
  /// reaches, within the window or the longest slowmode, an accepted record of the
  /// same author and class.
  lemma {:induction false} AgreementIsQuiet(
      stored: seq<Record>, placement: Placement, authority: Authority, limits: ReaderLimits)
    requires Ascending(stored) && FaithfulIds(stored)
    ensures IndexAndViewAgree(stored, placement, authority, limits)
            <==> Quiet(stored, Passes(placement, authority, limits))
  {
    hide AgreesOnAccepted, Passes, Ascending, FaithfulIds;
    if Quiet(stored, Passes(placement, authority, limits)) {
      forall q: Record -> bool, m: i64, n: i64, s: u32
        ensures AgreesOnAccepted(
          Filter(stored, q), Passes(placement, authority, AtRates(limits, m, n, s)), AtRates(limits, m, n, s))
      {
        QuietSelection(stored, q, placement, authority, limits, m, n, s);
        FilterAscending(stored, q);
        FilterFaithful(stored, q);
        QuietAgrees(
          Filter(stored, q), Passes(placement, authority, AtRates(limits, m, n, s)), AtRates(limits, m, n, s));
      }
    } else {
      var p := Passes(placement, authority, limits);
      var a, b :| a in stored && b in stored && !p(a) && p(b) && Reaches(a, b);
      var q, m, n, s := ReachingParts(stored, a, b, placement, authority, limits);
    }
  }

  /// The same of the index itself, where it is the pass: in a spaced channel, at
  /// rates that cover slowmode.
  ghost predicate TableAgrees(stored: seq<Record>, p: Record -> bool, limits: ReaderLimits) {
    forall r :: r in stored && p(r) ==>
      (r.id in TableRefusals(Folded(stored, limits)) <==> r.id in Refusals(Filter(stored, p), limits))
  }

  ghost predicate TableAndViewAgree(
      stored: seq<Record>, placement: Placement, authority: Authority, limits: ReaderLimits)
  {
    forall q: Record -> bool, m: i64, n: i64, s: u32 | Covers(AtRates(limits, m, n, s)) ::
      TableAgrees(Filter(stored, q), Passes(placement, authority, AtRates(limits, m, n, s)), AtRates(limits, m, n, s))
  }

  lemma {:induction false} TableIsThePass(
      stored: seq<Record>, q: Record -> bool, p: Record -> bool, limits: ReaderLimits)
    requires Ascending(stored) && FaithfulIds(stored) && OneChannel(stored) && Spaced(stored) && Covers(limits)
    ensures TableAgrees(Filter(stored, q), p, limits) <==> AgreesOnAccepted(Filter(stored, q), p, limits)
  {
    hide Ascending, FaithfulIds, OneChannel, Spaced, Filter, Folded, TableRefusals, Refusals;
    SelectionsAreSpaced(stored, q);
    IndexAgrees(Filter(stored, q), limits);
    AgreementIsOfRefusals(Filter(stored, q), limits);
  }

  lemma {:induction false} IndexAgreementIsQuiet(
      stored: seq<Record>, placement: Placement, authority: Authority, limits: ReaderLimits)
    requires Ascending(stored) && FaithfulIds(stored) && OneChannel(stored) && Spaced(stored)
    ensures TableAndViewAgree(stored, placement, authority, limits)
            <==> Quiet(stored, Passes(placement, authority, limits))
  {
    hide AgreesOnAccepted, TableAgrees, Passes, Ascending, FaithfulIds, OneChannel, Spaced, Covers;
    AgreementIsQuiet(stored, placement, authority, limits);
    forall q: Record -> bool, m: i64, n: i64, s: u32 | Covers(AtRates(limits, m, n, s))
      ensures var at := AtRates(limits, m, n, s);
              TableAgrees(Filter(stored, q), Passes(placement, authority, at), at)
              <==> AgreesOnAccepted(Filter(stored, q), Passes(placement, authority, at), at)
    {
      TableIsThePass(stored, q, Passes(placement, authority, AtRates(limits, m, n, s)), AtRates(limits, m, n, s));
    }
    if !Quiet(stored, Passes(placement, authority, limits)) {
      var p := Passes(placement, authority, limits);
      var a, b :| a in stored && b in stored && !p(a) && p(b) && Reaches(a, b);
      var q, m, n, s := ReachingParts(stored, a, b, placement, authority, limits);
    }
  }

  /// At given rates it is enough that whatever the check turned away is refused in
  /// any case, or is all its author has in its class.
  lemma {:induction false} StoredRejectsAreHarmless(
      stored: seq<Record>, placement: Placement, authority: Authority, limits: ReaderLimits)
    requires Ascending(stored) && FaithfulIds(stored)
    requires Fair(stored, Passes(placement, authority, limits), limits)
    ensures AgreesOnAccepted(stored, Passes(placement, authority, limits), limits)
  {
    hide Refusals, Filter, Fair, Passes;
    var p := Passes(placement, authority, limits);
    FairThinningChangesNoVerdict(stored, p, limits);
    forall r | r in stored && p(r) ensures Kept(stored, p, r.id) {
      var i :| 0 <= i < |stored| && stored[i] == r;
    }
  }

  lemma {:induction false} ReachingParts(
      stored: seq<Record>, a: Record, b: Record, placement: Placement, authority: Authority, limits: ReaderLimits)
    returns (q: Record -> bool, m: i64, n: i64, s: u32)
    requires Ascending(stored) && a in stored && b in stored && Reaches(a, b)
    requires !Passes(placement, authority, limits)(a) && Passes(placement, authority, limits)(b)
    ensures var at := AtRates(limits, m, n, s);
            Covers(at) && !AgreesOnAccepted(Filter(stored, q), Passes(placement, authority, at), at)
  {
    hide Passes, Reaches, Refusals, Ascending, Filter, AtRates;
    m, n, s := ReachingRefuses(a, b, limits);
    var at := AtRates(limits, m, n, s);
    q := Either(a, b);
    var p := Passes(placement, authority, at);
    TwoSelected(stored, a, b);
    CheckReadsNoRate(a, placement, authority, limits, m, n, s);
    CheckReadsNoRate(b, placement, authority, limits, m, n, s);
    SecondOfTwo(a, b, p);
    RatesAre(limits, m, n, s);
    AlwaysAlone(b, at);
    assert b in [a, b];
  }

  lemma {:induction false} RatesAre(limits: ReaderLimits, m: i64, n: i64, s: u32)
    ensures AtRates(limits, m, n, s).messageRatePerMinute == m && AtRates(limits, m, n, s).reactionRatePerMinute == n
    ensures m > 0 && n > 0 ==> Covers(AtRates(limits, m, n, s))
  {
  }

  lemma {:induction false} TwoSelected(stored: seq<Record>, a: Record, b: Record)
    requires Ascending(stored) && a in stored && b in stored && Reaches(a, b)
    ensures Filter(stored, Either(a, b)) == [a, b]
  {
    hide Filter, Reaches;
    var q := Either(a, b);
    FilterMembers(stored, q);
    FilterAscending(stored, q);
    EarlierFirst(a, b);
    AscendingIsUnique(Filter(stored, q), [a, b]);
  }

  lemma {:induction false} SecondOfTwo(a: Record, b: Record, p: Record -> bool)
    requires !p(a) && p(b)
    ensures Filter([a, b], p) == [b]
  {
    FilterAppend([], a, p);
    FilterAppend([a], b, p);
    assert [] + [a] == [a] && [a] + [b] == [a, b];
  }

  lemma {:induction false} EarlierFirst(a: Record, b: Record)
    requires Reaches(a, b)
    ensures Ascending([a, b])
  {
  }

  // ------------------------------------------------------------------------
  // What the executor shows
  // ------------------------------------------------------------------------

  /// What is hidden matters only among the records there.
  lemma {:induction false} RenderingSame(rs: seq<Record>, h: Record -> bool, k: Record -> bool)
    requires forall r :: r in rs ==> h(r) == k(r)
    ensures Rendering(rs, h) == Rendering(rs, k)
  {
    hide RenderOne;
    ShownAreMessages(rs, h);
    ShownAreMessages(rs, k);
    FilterSame(rs, IsShown(h), IsShown(k));
    var shown := Filter(rs, IsShown(h));
    forall i | 0 <= i < |shown| ensures RenderOne(shown[i], rs, h) == RenderOne(shown[i], rs, k) {
      RenderOneSame(shown[i], rs, h, k);
    }
    assert RenderEach(shown, rs, h) == RenderEach(shown, rs, k);
  }

  lemma {:induction false} RenderOneSame(m: Record, rs: seq<Record>, h: Record -> bool, k: Record -> bool)
    requires m.body.Message? && forall r :: r in rs ==> h(r) == k(r)
    ensures RenderOne(m, rs, h) == RenderOne(m, rs, k)
  {
    hide Act;
    if rs != [] {
      RenderOneSame(m, rs[..|rs| - 1], h, k);
    }
  }

  /// The records a page is drawn from, and the refusals it is drawn with: the
  /// index folds everything stored, and the view admits the page.
  function Page(
      stored: seq<Record>, q: Record -> bool, placement: Placement, authority: Authority, limits: ReaderLimits,
      now: i64)
    : seq<RenderedMessage>
  {
    Rendering(Accepted(Filter(stored, q), placement, authority, limits),
              Hidden(limits, now, TableRefusals(Folded(stored, limits)).Keys))
  }

  /// And with no index to ask: everything is admitted, and the view refuses.
  function Whole(stored: seq<Record>, placement: Placement, authority: Authority, limits: ReaderLimits, now: i64)
    : seq<RenderedMessage>
  {
    var accepted := Accepted(stored, placement, authority, limits);
    Rendering(accepted, Hidden(limits, now, Refusals(accepted, limits).Keys))
  }

  /// A page of a quiet, spaced channel is the whole channel's rendering cut down
  /// to the page, whatever else is stored.
  lemma {:induction false} ThePageIsTheChannel(
      stored: seq<Record>, q: Record -> bool, placement: Placement, authority: Authority, limits: ReaderLimits,
      now: i64)
    requires Ascending(stored) && FaithfulIds(stored) && OneChannel(stored) && Spaced(stored) && Covers(limits)
    requires Quiet(stored, Passes(placement, authority, limits))
    requires Closed(Accepted(stored, placement, authority, limits), q)
    ensures Page(stored, q, placement, authority, limits, now)
            == Filter(Whole(stored, placement, authority, limits, now),
                      Among(Ids(Accepted(Filter(stored, q), placement, authority, limits))))
  {
    hide Filter, Rendering, Refusals, TableRefusals, Folded, Ascending, FaithfulIds, OneChannel, Spaced, Quiet, Passes;
    var p := Passes(placement, authority, limits);
    var accepted := Accepted(stored, placement, authority, limits);
    IndexAgrees(stored, limits);
    AgreementIsOfRefusals(stored, limits);
    QuietAgrees(stored, p, limits);
    FilterMembers(stored, p);
    FilterAscending(stored, p);
    FilterFaithful(stored, p);
    FilterCommutes(stored, q, p);
    var h := Hidden(limits, now, Refusals(stored, limits).Keys);
    var k := Hidden(limits, now, Refusals(accepted, limits).Keys);
    PagesAreLocal(accepted, q, h);
    forall r | r in accepted ensures h(r) == k(r) {
      assert r in stored && p(r);
    }
    RenderingSame(accepted, h, k);
  }

  /// The page `Store::load` draws: the records of a window and what acts on them.
  function Loaded(ids: set<Id>): Record -> bool {
    (r: Record) => r.id in ids || (r.body.Target().Some? && r.body.Target().value in ids)
  }

  /// So every window the program draws of such a channel is the channel: whichever
  /// records it names, and whatever they are.
  lemma {:induction false} AWindowIsTheChannel(
      stored: seq<Record>, ids: set<Id>, placement: Placement, authority: Authority, limits: ReaderLimits, now: i64)
    requires Ascending(stored) && FaithfulIds(stored) && OneChannel(stored) && Spaced(stored) && Covers(limits)
    requires Quiet(stored, Passes(placement, authority, limits))
    ensures Page(stored, Loaded(ids), placement, authority, limits, now)
            == Filter(Whole(stored, placement, authority, limits, now),
                      Among(Ids(Accepted(Filter(stored, Loaded(ids)), placement, authority, limits))))
  {
    ThePageIsTheChannel(stored, Loaded(ids), placement, authority, limits, now);
  }

  // ------------------------------------------------------------------------
  // An input that parts them
  // ------------------------------------------------------------------------

  /// Two messages of one author, less than a window apart, the first the longer.
  predicate LongThenShort(a: Record, b: Record) {
    a.body.Message? && b.body.Message? && a.author == b.author && a.channel == b.channel && a.id != b.id
    && SaturatingSub(b.hlc.wall, RATE_WINDOW_MILLIS) < a.hlc.wall < b.hlc.wall
    && |b.body.text| < |a.body.text| && WithinBounds(b.body, |b.body.text|)
  }

  /// One message a minute, and none longer than the second of them.
  function OneAMinute(b: Record): ReaderLimits
    requires b.body.Message?
  {
    ReaderLimits(1, 1, |b.body.text|, 0, 0)
  }

  /// Say the allowance falls below the first of two such messages, stored before it
  /// did. That message fills its author's minute in the index and not in the view,
  /// so a page hides the other, which the channel loaded whole shows.
  lemma {:induction false} StoredRejectsCanHideAMessage(
      a: Record, b: Record, placement: Placement, authority: Authority, now: i64)
    requires LongThenShort(a, b) && a.channel == placement.channel && b.hlc.wall <= now
    requires authority.verifies(a) && authority.verifies(b)
    requires authority.isMember(a.author) && authority.mayPost(a.author, placement)
    ensures Ascending([a, b]) && FaithfulIds([a, b]) && Spaced([a, b]) && Covers(OneAMinute(b))
    ensures |Whole([a, b], placement, authority, OneAMinute(b), now)| == 1
    ensures Page([a, b], NoneLeftOut(), placement, authority, OneAMinute(b), now) == []
  {
    var limits := OneAMinute(b);
    TheyAreSpaced(a, b);
    hide Rendering, Refusals, TableRefusals, Folded, Filter, Hidden, Accepted, Ascending, FaithfulIds, Spaced,
         OneChannel, View.Check;
    IndexAgrees([a, b], limits);
    AgreementIsOfRefusals([a, b], limits);
    OneOfTwo(a, b, limits);
    OnlyTheShort(a, b, placement, authority);
    FilterAll([a, b], NoneLeftOut());
    ShownAlone(b, limits, now, Refusals([b], limits).Keys);
    ShownAlone(b, limits, now, TableRefusals(Folded([a, b], limits)).Keys);
  }

  lemma {:induction false} TheyAreSpaced(a: Record, b: Record)
    requires LongThenShort(a, b)
    ensures Ascending([a, b]) && FaithfulIds([a, b]) && OneChannel([a, b]) && Spaced([a, b]) && Covers(OneAMinute(b))
  {
  }

  function NoneLeftOut(): Record -> bool {
    (r: Record) => true
  }

  lemma {:induction false} OnlyTheShort(a: Record, b: Record, placement: Placement, authority: Authority)
    requires LongThenShort(a, b) && a.channel == placement.channel
    requires authority.verifies(a) && authority.verifies(b)
    requires authority.isMember(a.author) && authority.mayPost(a.author, placement)
    ensures Accepted([a, b], placement, authority, OneAMinute(b)) == [b]
  {
    var p := Passes(placement, authority, OneAMinute(b));
    assert !p(a) && p(b);
    SecondOfTwo(a, b, p);
  }

  lemma {:induction false} ShownAlone(b: Record, limits: ReaderLimits, now: i64, refused: set<Id>)
    requires b.body.Message? && !IsHeld(b, limits, now)
    ensures |Rendering([b], Hidden(limits, now, refused))| == if b.id in refused then 0 else 1
  {
    var hidden := Hidden(limits, now, refused);
    ShownAreMessages([b], hidden);
    FilterAppend([], b, IsShown(hidden));
    assert [] + [b] == [b];
  }

  lemma {:induction false} OneOfTwo(a: Record, b: Record, limits: ReaderLimits)
    requires LongThenShort(a, b) && limits == OneAMinute(b)
    ensures Refusals([b], limits) == map[]
    ensures b.id in Refusals([a, b], limits)
  {
    assert [b][..0] == [] && [a][..0] == [] && [a, b][..1] == [a];
    assert VerdictAt([b], 0, limits) == None && VerdictAt([a], 0, limits) == None;
    assert History([a], b.author, MessageClass, limits) == [a.hlc];
    assert [a.hlc][..0] == [];
    assert CountAfter([a.hlc], SaturatingSub(b.hlc.wall, RATE_WINDOW_MILLIS)) == 1;
  }
}
