/**
  What the ceilings buy: how much of one author's traffic can stand in a span of
  claimed time, and how much a reader shows at a given moment.
 */
module Pacing {
  import opened Prelude
  import opened Records
  import opened Limits

  /// How many readings lie in the half-open span `[lo, hi)`.
  function CountIn(history: seq<Hlc>, lo: int, hi: int): nat {
    if history == [] then 0
    else CountIn(history[..|history| - 1], lo, hi)
         + if lo <= history[|history| - 1].wall < hi then 1 else 0
  }

  /// The records of one author and class that stand and claim a time in `[lo, hi)`.
  ghost function Standing(
      rs: seq<Record>, author: Id, cls: RecordClass, lo: int, hi: int, limits: ReaderLimits): set<nat> {
    set i: nat | i < |rs| && rs[i].author == author && rs[i].Class() == cls
                 && lo <= rs[i].hlc.wall < hi && VerdictAt(rs, i, limits).None?
  }

  lemma {:induction false} NothingStands(author: Id, cls: RecordClass, lo: int, hi: int, limits: ReaderLimits)
    ensures Standing([], author, cls, lo, hi, limits) == {}
    ensures CountIn(History([], author, cls, limits), lo, hi) == 0
  {
  }

  lemma {:induction false} StandingIsCounted(
      rs: seq<Record>, author: Id, cls: RecordClass, lo: int, hi: int, limits: ReaderLimits)
    ensures |Standing(rs, author, cls, lo, hi, limits)| == CountIn(History(rs, author, cls, limits), lo, hi)
  {
    hide Standing, CountIn, History, Judge;
    if rs == [] {
      NothingStands(author, cls, lo, hi, limits);
    } else {
      var n := |rs| - 1;
      var front, r := rs[..n], rs[n];
      StandingIsCounted(front, author, cls, lo, hi, limits);
      StandingStep(front, r, author, cls, lo, hi, limits);
      HistoryStep(front, r, author, cls, limits);
      assert rs == front + [r];
      CountInStep(History(front, author, cls, limits), r.hlc, lo, hi);
    }
  }

  lemma {:induction false} CountInStep(history: seq<Hlc>, h: Hlc, lo: int, hi: int)
    ensures CountIn(history + [h], lo, hi) == CountIn(history, lo, hi) + if lo <= h.wall < hi then 1 else 0
  {
    assert (history + [h])[..|history|] == history;
  }

  lemma {:induction false} StandingStep(
      front: seq<Record>, r: Record, author: Id, cls: RecordClass, lo: int, hi: int, limits: ReaderLimits)
    ensures Standing(front + [r], author, cls, lo, hi, limits) ==
            Standing(front, author, cls, lo, hi, limits)
            + if r.author == author && r.Class() == cls && lo <= r.hlc.wall < hi
                 && Judge(History(front, author, cls, limits), cls, r.hlc.wall, limits).None?
              then {|front|} else {}
    ensures |front| !in Standing(front, author, cls, lo, hi, limits)
  {
    var rs, n := front + [r], |front|;
    assert rs[..n] == front;
    forall i: nat | i < n ensures rs[i] == front[i] && VerdictAt(front, i, limits) == VerdictAt(rs, i, limits) {
      PrefixVerdict(rs, n, i, limits);
    }
  }

  // ------------------------------------------------------------------------
  // A verdict in terms of verdicts
  // ------------------------------------------------------------------------

  lemma {:induction false} StandingIsRemembered(rs: seq<Record>, i: nat, limits: ReaderLimits)
    requires i < |rs| && VerdictAt(rs, i, limits).None?
    ensures rs[i].hlc in History(rs, rs[i].author, rs[i].Class(), limits)
  {
    var front, r := rs[..|rs| - 1], rs[|rs| - 1];
    if i < |front| {
      assert front[..i] == rs[..i];
      StandingIsRemembered(front, i, limits);
    }
  }

  lemma {:induction false} RememberedStands(rs: seq<Record>, author: Id, cls: RecordClass, limits: ReaderLimits, h: Hlc)
    returns (i: nat)
    requires h in History(rs, author, cls, limits)
    ensures i < |rs| && rs[i].author == author && rs[i].Class() == cls && rs[i].hlc == h
    ensures VerdictAt(rs, i, limits).None?
  {
    var n := |rs| - 1;
    if h in History(rs[..n], author, cls, limits) {
      i := RememberedStands(rs[..n], author, cls, limits, h);
      PrefixVerdict(rs, n, i, limits);
    } else {
      i := n;
    }
  }

  lemma {:induction false} CountAfterIsIn(history: seq<Hlc>, floor: int)
    ensures CountAfter(history, floor) == CountIn(history, floor + 1, I64_MAX + 1)
  {
    if history != [] {
      CountAfterIsIn(history[..|history| - 1], floor);
    }
  }

  /// Some standing message of the same author, before `rs[i]`, is less than the
  /// interval before it.
  ghost predicate TooSoonAfter(rs: seq<Record>, i: nat, limits: ReaderLimits)
    requires i < |rs|
  {
    rs[i].Class().MessageClass? && limits.slowmodeSeconds > 0
    && exists j: nat :: j < i && rs[j].author == rs[i].author && rs[j].Class().MessageClass?
                        && VerdictAt(rs, j, limits).None?
                        && SaturatingSub(rs[i].hlc.wall, rs[j].hlc.wall) < limits.Interval()
  }

  /// The standing records before `rs[i]`, of its author and class, in its
  /// trailing window.
  ghost function InWindow(rs: seq<Record>, i: nat, limits: ReaderLimits): set<nat>
    requires i < |rs|
  {
    set j: nat | j < i && rs[j].author == rs[i].author && rs[j].Class() == rs[i].Class()
                 && VerdictAt(rs, j, limits).None?
                 && rs[j].hlc.wall > SaturatingSub(rs[i].hlc.wall, RATE_WINDOW_MILLIS)
  }

  /// No verdict is unearned: a record is refused exactly when its author has a
  /// standing message too near before it, or a ceiling's worth of standing
  /// records of its class in the minute before it.
  lemma {:induction false} VerdictMeans(rs: seq<Record>, i: nat, limits: ReaderLimits)
    requires i < |rs|
    ensures VerdictAt(rs, i, limits) ==
            match limits.CeilingFor(rs[i].Class())
            case None => None
            case Some(ceiling) =>
              if TooSoonAfter(rs, i, limits) then Some(Slowmode)
              else if |InWindow(rs, i, limits)| >= ceiling then Some(TooFast)
              else None
  {
    hide VerdictAt;
    var before, r := rs[..i], rs[i];
    var h, floor := History(before, r.author, r.Class(), limits), SaturatingSub(r.hlc.wall, RATE_WINDOW_MILLIS);
    forall j: nat | j < i ensures before[j] == rs[j] && VerdictAt(before, j, limits) == VerdictAt(rs, j, limits) {
      PrefixVerdict(rs, i, j, limits);
    }
    assert InWindow(rs, i, limits) == Standing(before, r.author, r.Class(), floor + 1, I64_MAX + 1, limits);
    StandingIsCounted(before, r.author, r.Class(), floor + 1, I64_MAX + 1, limits);
    CountAfterIsIn(h, floor);
    if r.Class().MessageClass? {
      CrowdedIsTooSoon(rs, i, limits);
    }
    VerdictIsJudged(rs, i, limits);
  }

  lemma {:induction false} VerdictIsJudged(rs: seq<Record>, i: nat, limits: ReaderLimits)
    requires i < |rs|
    ensures VerdictAt(rs, i, limits)
            == Judge(History(rs[..i], rs[i].author, rs[i].Class(), limits), rs[i].Class(), rs[i].hlc.wall, limits)
  {
  }

  lemma {:induction false} CrowdedIsTooSoon(rs: seq<Record>, i: nat, limits: ReaderLimits)
    requires i < |rs| && rs[i].Class().MessageClass?
    ensures limits.slowmodeSeconds > 0
            && Crowded(History(rs[..i], rs[i].author, MessageClass, limits), rs[i].hlc.wall, limits.Interval())
            <==> TooSoonAfter(rs, i, limits)
  {
    hide VerdictAt;
    var before, h := rs[..i], History(rs[..i], rs[i].author, MessageClass, limits);
    if Crowded(h, rs[i].hlc.wall, limits.Interval()) {
      var k :| 0 <= k < |h| && SaturatingSub(rs[i].hlc.wall, h[k].wall) < limits.Interval();
      var j := RememberedStands(before, rs[i].author, MessageClass, limits, h[k]);
      PrefixVerdict(rs, i, j, limits);
    }
    if TooSoonAfter(rs, i, limits) {
      var j: nat :| j < i && rs[j].author == rs[i].author && rs[j].Class().MessageClass?
                    && VerdictAt(rs, j, limits).None?
                    && SaturatingSub(rs[i].hlc.wall, rs[j].hlc.wall) < limits.Interval();
      PrefixVerdict(rs, i, j, limits);
      StandingIsRemembered(before, j, limits);
      var k :| 0 <= k < |h| && h[k] == before[j].hlc;
    }
  }

  // ------------------------------------------------------------------------
  // Ceilings
  // ------------------------------------------------------------------------

  /// Readings of a window-long span ending at `at` are all inside the trailing
  /// window the judgement counts, unless one claims the earliest instant there is.
  lemma {:induction false} SpanIsInsideTheWindow(history: seq<Hlc>, lo: int, at: i64)
    requires I64_MIN < lo && at < lo + RATE_WINDOW_MILLIS
    ensures CountIn(history, lo, lo + RATE_WINDOW_MILLIS) <= CountAfter(history, SaturatingSub(at, RATE_WINDOW_MILLIS))
  {
    if history != [] {
      SpanIsInsideTheWindow(history[..|history| - 1], lo, at);
    }
  }

  lemma {:induction false} WindowBound(rs: seq<Record>, author: Id, cls: RecordClass, lo: int, limits: ReaderLimits)
    requires limits.CeilingFor(cls).Some? && I64_MIN < lo
    ensures CountIn(History(rs, author, cls, limits), lo, lo + RATE_WINDOW_MILLIS) <= limits.CeilingFor(cls).value
  {
    if rs != [] {
      var front, r := rs[..|rs| - 1], rs[|rs| - 1];
      WindowBound(front, author, cls, lo, limits);
      var h := History(front, author, cls, limits);
      if r.hlc.wall < lo + RATE_WINDOW_MILLIS {
        SpanIsInsideTheWindow(h, lo, r.hlc.wall);
      }
      assert (h + [r.hlc])[..|h|] == h;
    }
  }

  lemma {:induction false} CountInSplits(history: seq<Hlc>, lo: int, mid: int, hi: int)
    requires lo <= mid <= hi
    ensures CountIn(history, lo, hi) == CountIn(history, lo, mid) + CountIn(history, mid, hi)
  {
    if history != [] {
      CountInSplits(history[..|history| - 1], lo, mid, hi);
    }
  }

  lemma {:induction false} SpanBound(
      rs: seq<Record>, author: Id, cls: RecordClass, lo: int, n: nat, limits: ReaderLimits)
    requires limits.CeilingFor(cls).Some? && I64_MIN < lo
    ensures CountIn(History(rs, author, cls, limits), lo, lo + n * 60_000) <= limits.CeilingFor(cls).value * n
    decreases n
  {
    var h, c := History(rs, author, cls, limits), limits.CeilingFor(cls).value;
    if n == 0 {
      EmptySpan(h, lo);
    } else {
      var mid := lo + (n - 1) * 60_000;
      SpanBound(rs, author, cls, lo, n - 1, limits);
      WindowBound(rs, author, cls, mid, limits);
      CountInSplits(h, lo, mid, mid + 60_000);
      assert c * n == c * (n - 1) + c;
    }
  }

  lemma {:induction false} EmptySpan(history: seq<Hlc>, lo: int)
    ensures CountIn(history, lo, lo) == 0
  {
    if history != [] {
      EmptySpan(history[..|history| - 1], lo);
    }
  }

  /// How much of one author and class stands in the window-long span from `lo`.
  ghost function Load(rs: seq<Record>, author: Id, cls: RecordClass, lo: int, limits: ReaderLimits): nat {
    |Standing(rs, author, cls, lo, lo + RATE_WINDOW_MILLIS, limits)|
  }

  /// The ceiling, as a bound on what stands: in every span one window long, in
  /// every record set, at most `ceiling` records of one author and class.
  ghost predicate BoundHolds(lo: int, cls: RecordClass, limits: ReaderLimits)
    requires limits.CeilingFor(cls).Some?
  {
    forall rs: seq<Record>, author: Id | Ascending(rs) ::
      Load(rs, author, cls, lo, limits) <= limits.CeilingFor(cls).value
  }

  /// Whatever slowmode says besides: every span after the earliest instant holds
  /// at most `ceiling` standing records of one author and class.
  lemma {:induction false} CeilingBounds(rs: seq<Record>, author: Id, cls: RecordClass, lo: int, limits: ReaderLimits)
    requires limits.CeilingFor(cls).Some? && I64_MIN < lo
    ensures Load(rs, author, cls, lo, limits) <= limits.CeilingFor(cls).value
  {
    StandingIsCounted(rs, author, cls, lo, lo + RATE_WINDOW_MILLIS, limits);
    WindowBound(rs, author, cls, lo, limits);
  }

  /// How far apart slowmode keeps the standing records of a class: it speaks of
  /// messages alone.
  function Spacing(cls: RecordClass, limits: ReaderLimits): nat {
    if cls.MessageClass? then limits.Interval() else 0
  }

  /// How long `k` steps are.
  function After(k: nat, step: nat): nat {
    if k == 0 then 0 else After(k - 1, step) + step
  }

  lemma {:induction false} AfterIsTheProduct(k: nat, step: nat)
    ensures After(k, step) == k * step
  {
    if k > 0 {
      AfterIsTheProduct(k - 1, step);
    }
  }

  lemma {:induction false} StepsAdd(j: nat, k: nat, step: nat)
    requires j < k
    ensures After(j, step) + step <= After(k, step)
  {
    if j < k - 1 {
      StepsAdd(j, k - 1, step);
    }
  }

  /// The `k`-th record of a burst from the earliest instant on, of either rated class.
  function EarlyRecord(k: nat, step: nat, author: Id, cls: RecordClass): (r: Record)
    requires k < ID_SPACE && (cls.MessageClass? || cls.ReactionClass?)
    requires After(k, step) < RATE_WINDOW_MILLIS
    ensures r.Class() == cls && r.author == author && r.Position() == Cursor(Hlc(I64_MIN + After(k, step), 0), k)
  {
    Record(k, 0, author, 0, Hlc(I64_MIN + After(k, step), 0),
           if cls.MessageClass? then Tombstone(0) else Pin(0, false), BLANK_SIGNATURE)
  }

  /// `n` of them, all inside one window.
  function EarliestBurst(n: nat, step: nat, author: Id, cls: RecordClass): (rs: seq<Record>)
    requires n < ID_SPACE && (cls.MessageClass? || cls.ReactionClass?)
    requires n > 0 ==> After(n - 1, step) < RATE_WINDOW_MILLIS
    ensures |rs| == n
  {
    if n == 0 then [] else EarliestBurst(n - 1, step, author, cls) + [EarlyRecord(n - 1, step, author, cls)]
  }

  lemma {:induction false} BurstAt(n: nat, step: nat, author: Id, cls: RecordClass, k: nat)
    requires k < n < ID_SPACE && (cls.MessageClass? || cls.ReactionClass?)
    requires After(n - 1, step) < RATE_WINDOW_MILLIS
    ensures After(k, step) < RATE_WINDOW_MILLIS
    ensures EarliestBurst(n, step, author, cls)[k] == EarlyRecord(k, step, author, cls)
  {
    hide EarlyRecord;
    if k < n - 1 {
      BurstAt(n - 1, step, author, cls, k);
    }
  }

  lemma {:induction false} BurstAscends(n: nat, step: nat, author: Id, cls: RecordClass)
    requires n < ID_SPACE && (cls.MessageClass? || cls.ReactionClass?)
    requires n > 0 ==> After(n - 1, step) < RATE_WINDOW_MILLIS
    ensures Ascending(EarliestBurst(n, step, author, cls))
  {
    hide EarliestBurst, EarlyRecord, After;
    var rs := EarliestBurst(n, step, author, cls);
    forall i, j | 0 <= i < j < n ensures rs[i].Position().Less(rs[j].Position()) {
      BurstAt(n, step, author, cls, i);
      BurstAt(n, step, author, cls, j);
      StepsAdd(i, j, step);
    }
  }

  /// A window saturates at the earliest instant and counts strictly after its
  /// floor, so a reading there is never counted against anything.
  lemma {:induction false} TheEarliestInstantIsNeverCounted(history: seq<Hlc>, floor: int)
    ensures CountAfter(history, floor) <= |history|
    ensures history != [] && history[0].wall <= floor ==> CountAfter(history, floor) <= |history| - 1
  {
    if history != [] {
      TheEarliestInstantIsNeverCounted(history[..|history| - 1], floor);
    }
  }

  /// These readings, and no others.
  ghost predicate Stepped(history: seq<Hlc>, n: nat, step: nat) {
    |history| == n && forall k :: 0 <= k < n ==> history[k].wall == I64_MIN + After(k, step)
  }

  lemma {:induction false} BurstStands(n: nat, step: nat, author: Id, cls: RecordClass, limits: ReaderLimits)
    requires limits.CeilingFor(cls).Some? && n <= limits.CeilingFor(cls).value + 1
    requires step == Spacing(cls, limits) && (n > 0 ==> After(n - 1, step) < RATE_WINDOW_MILLIS)
    ensures Stepped(History(EarliestBurst(n, step, author, cls), author, cls, limits), n, step)
  {
    hide Judge, EarlyRecord, EarliestBurst, After, Spacing, Stepped;
    if n == 0 {
      NoBurst(step, author, cls);
    } else {
      hide History;
      if n > 1 {
        StepsAdd(n - 2, n - 1, step);
      }
      BurstStands(n - 1, step, author, cls, limits);
      BurstGrows(n, step, author, cls);
      OneMoreStands(EarliestBurst(n - 1, step, author, cls), n, step, author, cls, limits);
    }
  }

  lemma {:induction false} OneMoreStands(
      front: seq<Record>, n: nat, step: nat, author: Id, cls: RecordClass, limits: ReaderLimits)
    requires limits.CeilingFor(cls).Some? && 0 < n <= limits.CeilingFor(cls).value + 1
    requires step == Spacing(cls, limits) && After(n - 1, step) < RATE_WINDOW_MILLIS
    requires Stepped(History(front, author, cls, limits), n - 1, step)
    ensures Stepped(History(front + [EarlyRecord(n - 1, step, author, cls)], author, cls, limits), n, step)
  {
    hide History, Judge, EarlyRecord, After, Spacing, Stepped;
    var r := EarlyRecord(n - 1, step, author, cls);
    var before := History(front, author, cls, limits);
    NextOfABurstStands(before, n, step, cls, limits);
    assert r.Position().hlc == r.hlc;
    HistoryStep(front, r, author, cls, limits);
    OneStepMore(before, r.hlc, n, step);
  }

  lemma {:induction false} NoBurst(step: nat, author: Id, cls: RecordClass)
    requires cls.MessageClass? || cls.ReactionClass?
    ensures EarliestBurst(0, step, author, cls) == [] && Stepped([], 0, step)
  {
  }

  lemma {:induction false} BurstGrows(n: nat, step: nat, author: Id, cls: RecordClass)
    requires 0 < n < ID_SPACE && (cls.MessageClass? || cls.ReactionClass?)
    requires After(n - 1, step) < RATE_WINDOW_MILLIS
    ensures n > 1 ==> After(n - 2, step) < RATE_WINDOW_MILLIS
    ensures EarliestBurst(n, step, author, cls)
            == EarliestBurst(n - 1, step, author, cls) + [EarlyRecord(n - 1, step, author, cls)]
  {
    hide EarlyRecord;
  }

  lemma {:induction false} OneStepMore(history: seq<Hlc>, h: Hlc, n: nat, step: nat)
    requires n > 0 && Stepped(history, n - 1, step) && h.wall == I64_MIN + After(n - 1, step)
    ensures Stepped(history + [h], n, step)
  {
  }

  lemma {:induction false} NextOfABurstStands(
      history: seq<Hlc>, n: nat, step: nat, cls: RecordClass, limits: ReaderLimits)
    requires limits.CeilingFor(cls).Some? && 0 < n <= limits.CeilingFor(cls).value + 1
    requires step == Spacing(cls, limits) && After(n - 1, step) < RATE_WINDOW_MILLIS
    requires Stepped(history, n - 1, step)
    ensures Judge(history, cls, I64_MIN + After(n - 1, step), limits).None?
  {
    var at: i64 := I64_MIN + After(n - 1, step);
    TheEarliestInstantIsNeverCounted(history, I64_MIN);
    assert SaturatingSub(at, RATE_WINDOW_MILLIS) == I64_MIN;
    assert After(0, step) == 0;
    hide CountAfter, After;
    forall k | 0 <= k < |history| ensures SaturatingSub(at, history[k].wall) >= step {
      StepsAdd(k, n - 1, step);
    }
  }

  lemma {:induction false} CountsAll(history: seq<Hlc>, lo: int, hi: int)
    requires forall k :: 0 <= k < |history| ==> lo <= history[k].wall < hi
    ensures CountIn(history, lo, hi) == |history|
  {
    if history != [] {
      CountsAll(history[..|history| - 1], lo, hi);
    }
  }

  /// Standing messages climb by the interval, from the earliest instant at least.
  lemma {:induction false} MessagesClimb(rs: seq<Record>, author: Id, limits: ReaderLimits)
    requires limits.messageRatePerMinute > 0 && limits.slowmodeSeconds > 0
    ensures var h := History(rs, author, MessageClass, limits);
            forall k :: 0 <= k < |h| ==> h[k].wall >= I64_MIN + After(k, limits.Interval())
  {
    hide CountAfter;
    if rs != [] {
      var front, r, step := rs[..|rs| - 1], rs[|rs| - 1], limits.Interval();
      MessagesClimb(front, author, limits);
      var before, h := History(front, author, MessageClass, limits), History(rs, author, MessageClass, limits);
      var n := |before|;
      if h != before && n > 0 {
        assert h == before + [r.hlc];
        assert !Crowded(before, r.hlc.wall, step);
        assert SaturatingSub(r.hlc.wall, before[n - 1].wall) >= step;
        assert After(n, step) == After(n - 1, step) + step;
      }
    }
  }

  lemma {:induction false} FewBefore(history: seq<Hlc>, lo: int, hi: int, most: nat)
    requires forall k :: most <= k < |history| ==> history[k].wall >= hi
    ensures CountIn(history, lo, hi) <= most
    ensures CountIn(history, lo, hi) <= |history|
  {
    if history != [] {
      FewBefore(history[..|history| - 1], lo, hi, most);
    }
  }

  lemma {:induction false} SlowmodeBoundsTheEarliest(rs: seq<Record>, author: Id, limits: ReaderLimits)
    requires limits.messageRatePerMinute > 0 && limits.slowmodeSeconds > 0
    requires After(limits.messageRatePerMinute, limits.Interval()) >= RATE_WINDOW_MILLIS
    ensures Load(rs, author, MessageClass, I64_MIN, limits) <= limits.messageRatePerMinute
  {
    hide History, CountIn, Standing, After;
    var h, most, step := History(rs, author, MessageClass, limits), limits.messageRatePerMinute, limits.Interval();
    StandingIsCounted(rs, author, MessageClass, I64_MIN, I64_MIN + RATE_WINDOW_MILLIS, limits);
    MessagesClimb(rs, author, limits);
    forall k | most <= k < |h| ensures h[k].wall >= I64_MIN + RATE_WINDOW_MILLIS {
      if most < k {
        StepsAdd(most, k, step);
      }
    }
    FewBefore(h, I64_MIN, I64_MIN + RATE_WINDOW_MILLIS, most);
  }

  /// One more than the ceiling stands in the first window, as near together as
  /// slowmode allows.
  lemma {:induction false} TheFirstWindowOverflows(cls: RecordClass, limits: ReaderLimits)
    requires limits.CeilingFor(cls).Some?
    requires After(limits.CeilingFor(cls).value, Spacing(cls, limits)) < RATE_WINDOW_MILLIS
    ensures !BoundHolds(I64_MIN, cls, limits)
  {
    hide History, Standing, CountIn, After, EarliestBurst;
    var n, step := limits.CeilingFor(cls).value + 1, Spacing(cls, limits);
    var burst := EarliestBurst(n, step, 0, cls);
    BurstAscends(n, step, 0, cls);
    BurstStands(n, step, 0, cls, limits);
    StandingIsCounted(burst, 0, cls, I64_MIN, I64_MIN + RATE_WINDOW_MILLIS, limits);
    var h := History(burst, 0, cls, limits);
    forall k | 0 <= k < |h| ensures I64_MIN <= h[k].wall < I64_MIN + RATE_WINDOW_MILLIS {
      if k < n - 1 {
        StepsAdd(k, n - 1, step);
      }
    }
    CountsAll(h, I64_MIN, I64_MIN + RATE_WINDOW_MILLIS);
    assert Load(burst, 0, cls, I64_MIN, limits) == n;
  }

  /// Where the bound holds: of every span but the one from the earliest instant an
  /// `i64` can name, and there of messages, where slowmode alone lets no more than
  /// a ceiling's worth of them into a window.
  lemma {:induction false} CeilingBoundsEverySpan(lo: i64, cls: RecordClass, limits: ReaderLimits)
    requires limits.CeilingFor(cls).Some?
    ensures BoundHolds(lo, cls, limits) <==>
            lo > I64_MIN || (cls.MessageClass? && limits.CeilingFor(cls).value * limits.slowmodeSeconds >= 60)
  {
    hide Load, After;
    var most := limits.CeilingFor(cls).value;
    AfterIsTheProduct(most, Spacing(cls, limits));
    assert most * limits.Interval() == most * limits.slowmodeSeconds * 1_000;
    if lo > I64_MIN {
      forall rs: seq<Record>, author: Id | Ascending(rs) ensures Load(rs, author, cls, lo, limits) <= most {
        CeilingBounds(rs, author, cls, lo, limits);
      }
    } else if cls.MessageClass? && most * limits.slowmodeSeconds >= 60 {
      forall rs: seq<Record>, author: Id | Ascending(rs) ensures Load(rs, author, cls, lo, limits) <= most {
        SlowmodeBoundsTheEarliest(rs, author, limits);
      }
    } else {
      TheFirstWindowOverflows(cls, limits);
    }
  }

  /// How many windows cover a length of time: the quotient rounded up.
  function Windows(length: int): (n: nat)
    requires length >= 0
    ensures (n - 1) * RATE_WINDOW_MILLIS < length <= n * RATE_WINDOW_MILLIS
  {
    (length + RATE_WINDOW_MILLIS - 1) / RATE_WINDOW_MILLIS
  }

  /// The records a reader shows now that claim a time after `now - span`.
  ghost function ShownSince(
      rs: seq<Record>, author: Id, cls: RecordClass, span: int, limits: ReaderLimits, now: i64): set<nat> {
    set i: nat | i < |rs| && rs[i].author == author && rs[i].Class() == cls
                 && rs[i].hlc.wall > now - span
                 && VerdictAt(rs, i, limits).None? && !IsHeld(rs[i], limits, now)
  }

  /// An author gets the pacing they claim: neither spreading claims ahead nor
  /// bunching them lets more than this through, at any local time.
  lemma {:induction false} ClaimedPacingIsThePacing(
    rs: seq<Record>, author: Id, cls: RecordClass, span: int, limits: ReaderLimits, now: i64)
    requires limits.CeilingFor(cls).Some?
    requires 0 <= span + limits.maxFutureSkewMillis && I64_MIN <= now - span
    ensures |ShownSince(rs, author, cls, span, limits, now)| <=
            limits.CeilingFor(cls).value * Windows(span + limits.maxFutureSkewMillis)
  {
    hide History, CountIn, VerdictAt, Windows;
    var n := Windows(span + limits.maxFutureSkewMillis);
    var lo := now - span + 1;
    var hi := lo + n * RATE_WINDOW_MILLIS;
    var shown, standing := ShownSince(rs, author, cls, span, limits, now), Standing(rs, author, cls, lo, hi, limits);
    forall i | i in shown ensures i in standing {
      assert rs[i].hlc.wall <= now + limits.maxFutureSkewMillis;
    }
    SubsetIsSmaller(shown, standing);
    StandingIsCounted(rs, author, cls, lo, hi, limits);
    SpanBound(rs, author, cls, lo, n, limits);
  }

  lemma {:induction false} SubsetIsSmaller<T>(a: set<T>, b: set<T>)
    requires a <= b
    ensures |a| <= |b|
  {
    if a != {} {
      var x :| x in a;
      SubsetIsSmaller(a - {x}, b - {x});
    }
  }

  // ------------------------------------------------------------------------
  // Slowmode
  // ------------------------------------------------------------------------

  /// Two standing messages of one author are never closer than the interval.
  ghost predicate SlowmodePaces(limits: ReaderLimits) {
    forall rs: seq<Record>, i: nat, j: nat |
      Ascending(rs) && i < j < |rs| && rs[i].author == rs[j].author
      && rs[i].Class().MessageClass? && rs[j].Class().MessageClass?
      && VerdictAt(rs, i, limits).None? && VerdictAt(rs, j, limits).None? ::
      rs[j].hlc.wall - rs[i].hlc.wall >= limits.Interval()
  }

  /// Slowmode paces what stands exactly where a message ceiling is set at all:
  /// with the ceiling off, the pass leaves before it looks at slowmode.
  lemma {:induction false} SlowmodeNeedsACeiling(limits: ReaderLimits)
    ensures SlowmodePaces(limits) <==> limits.messageRatePerMinute > 0 || limits.slowmodeSeconds == 0
  {
    if limits.messageRatePerMinute > 0 || limits.slowmodeSeconds == 0 {
      forall rs: seq<Record>, i: nat, j: nat |
        Ascending(rs) && i < j < |rs| && rs[i].author == rs[j].author
        && rs[i].Class().MessageClass? && rs[j].Class().MessageClass?
        && VerdictAt(rs, i, limits).None? && VerdictAt(rs, j, limits).None?
        ensures rs[j].hlc.wall - rs[i].hlc.wall >= limits.Interval()
      {
        SlowmodeSpacing(rs, i, j, limits);
      }
    } else {
      var rs := [Record(0, 0, 0, 0, Hlc(0, 0), Tombstone(0), BLANK_SIGNATURE),
                 Record(1, 0, 0, 0, Hlc(0, 1), Tombstone(0), BLANK_SIGNATURE)];
      assert Ascending(rs);
      assert VerdictAt(rs, 0, limits).None? && VerdictAt(rs, 1, limits).None?;
      assert rs[1].hlc.wall - rs[0].hlc.wall < limits.Interval();
    }
  }

  lemma {:induction false} SlowmodeSpacing(rs: seq<Record>, i: nat, j: nat, limits: ReaderLimits)
    requires Ascending(rs) && i < j < |rs| && rs[i].author == rs[j].author
    requires rs[i].Class().MessageClass? && rs[j].Class().MessageClass?
    requires VerdictAt(rs, i, limits).None? && VerdictAt(rs, j, limits).None?
    requires limits.messageRatePerMinute > 0 || limits.slowmodeSeconds == 0
    ensures rs[j].hlc.wall - rs[i].hlc.wall >= limits.Interval()
  {
    assert rs[i].Position().Less(rs[j].Position());
    if limits.slowmodeSeconds > 0 {
      var before := rs[..j];
      assert before[..i] == rs[..i];
      StandingIsRemembered(before, i, limits);
      var h := History(before, rs[j].author, MessageClass, limits);
      var k :| 0 <= k < |h| && h[k] == rs[i].hlc;
      assert !Crowded(h, rs[j].hlc.wall, limits.Interval());
    }
  }

  // ------------------------------------------------------------------------
  // Held
  // ------------------------------------------------------------------------

  ghost predicate HeldOnlyShrinks(limits: ReaderLimits) {
    forall r: Record, sooner: i64, later: i64 | sooner <= later ::
      IsHeld(r, limits, later) ==> IsHeld(r, limits, sooner)
  }

  /// As local time passes records leave the hold and none enters it, for every
  /// record and every pair of clock readings, exactly when the skew is not negative.
  lemma {:induction false} HoldExpires(limits: ReaderLimits)
    ensures HeldOnlyShrinks(limits) <==> limits.maxFutureSkewMillis >= 0
  {
    if limits.maxFutureSkewMillis < 0 {
      var r := Record(0, 0, 0, 0, Hlc(I64_MAX, 0), Tombstone(0), BLANK_SIGNATURE);
      var sooner: i64 := I64_MIN;
      var later: i64 := if limits.maxFutureSkewMillis == I64_MIN then 0 else I64_MIN - limits.maxFutureSkewMillis;
      assert IsHeld(r, limits, later) && !IsHeld(r, limits, sooner);
    }
  }
}
