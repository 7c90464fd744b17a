/**
  The bounds a reader enforces over a whole record set: rate ceilings, slowmode
  and the hold on future-dated records (crates/kols-core/src/limits.rs).

  `Judge` says, without a running state, when a record is refused: by the
  readings its author already had admitted in its class. `Withheld` is the
  source's single pass with its two tables. The rest of the module is about what
  the rule means.
 */
module Limits {
  import opened Prelude
  import opened Records

  const RATE_WINDOW_MILLIS: i64 := 60_000

  datatype ReaderLimits = ReaderLimits(
    messageRatePerMinute: i64,
    reactionRatePerMinute: i64,
    messageMaxBytes: u64,
    maxFutureSkewMillis: i64,
    slowmodeSeconds: u32)
  {
    /// The ceiling for a class, or `None` where it has none; zero or less is off.
    function CeilingFor(cls: RecordClass): Option<i64> {
      match cls
      case MessageClass => if messageRatePerMinute > 0 then Some(messageRatePerMinute) else None
      case ReactionClass => if reactionRatePerMinute > 0 then Some(reactionRatePerMinute) else None
      case _ => None
    }

    /// The slowmode interval in milliseconds. The saturating product of the
    /// source cannot saturate: the factor is a `u32`.
    function Interval(): i64 {
      slowmodeSeconds * 1_000
    }
  }

  datatype Withheld = Withheld(refused: map<Id, Rejection>, held: set<Id>)

  /// Dated further ahead than the clock allows. Where `now + skew` does not fit
  /// an `i64`, nothing is.
  predicate IsHeld(r: Record, limits: ReaderLimits, now: i64) {
    var horizon := CheckedAdd(now, limits.maxFutureSkewMillis);
    horizon.Some? && r.hlc.wall > horizon.value
  }

  /// How many readings lie after `floor`.
  function CountAfter(history: seq<Hlc>, floor: int): nat {
    if history == [] then 0
    else CountAfter(history[..|history| - 1], floor)
         + if history[|history| - 1].wall > floor then 1 else 0
  }

  /// Some reading is less than `interval` before `at`.
  predicate Crowded(history: seq<Hlc>, at: i64, interval: i64) {
    exists k :: 0 <= k < |history| && SaturatingSub(at, history[k].wall) < interval
  }

  /// Why a record of `class` dated `at` is refused, given the readings of its
  /// author and class already admitted; `None` where it stands.
  function Judge(history: seq<Hlc>, cls: RecordClass, at: i64, limits: ReaderLimits): Option<Rejection> {
    match limits.CeilingFor(cls)
    case None => None
    case Some(ceiling) =>
      if cls.MessageClass? && limits.slowmodeSeconds > 0 && Crowded(history, at, limits.Interval()) then
        Some(Slowmode)
      else if CountAfter(history, SaturatingSub(at, RATE_WINDOW_MILLIS)) >= ceiling then
        Some(TooFast)
      else
        None
  }

  /// The readings of one author and class that stand, in merge order.
  function History(rs: seq<Record>, author: Id, cls: RecordClass, limits: ReaderLimits): seq<Hlc> {
    if rs == [] then []
    else
      var before := History(rs[..|rs| - 1], author, cls, limits);
      var r := rs[|rs| - 1];
      if r.author == author && r.Class() == cls && Judge(before, cls, r.hlc.wall, limits).None? then
        before + [r.hlc]
      else
        before
  }

  /// The verdict on `rs[i]`, which only what precedes it can influence.
  function VerdictAt(rs: seq<Record>, i: nat, limits: ReaderLimits): Option<Rejection>
    requires i < |rs|
  {
    Judge(History(rs[..i], rs[i].author, rs[i].Class(), limits), rs[i].Class(), rs[i].hlc.wall, limits)
  }

  lemma {:induction false} PrefixVerdict(rs: seq<Record>, n: nat, i: nat, limits: ReaderLimits)
    requires i < n <= |rs|
    ensures VerdictAt(rs[..n], i, limits) == VerdictAt(rs, i, limits)
  {
    assert rs[..n][..i] == rs[..i];
  }

  /// Every refusal over a record set, by id.
  function Refusals(rs: seq<Record>, limits: ReaderLimits): map<Id, Rejection> {
    if rs == [] then map[]
    else
      var before := Refusals(rs[..|rs| - 1], limits);
      match VerdictAt(rs, |rs| - 1, limits)
      case None => before
      case Some(why) => before[rs[|rs| - 1].id := why]
  }

  // ------------------------------------------------------------------------
  // The pass
  // ------------------------------------------------------------------------

  lemma {:induction false} HistoryStep(rs: seq<Record>, r: Record, author: Id, cls: RecordClass, limits: ReaderLimits)
    ensures History(rs + [r], author, cls, limits) ==
            if r.author == author && r.Class() == cls
               && Judge(History(rs, author, cls, limits), cls, r.hlc.wall, limits).None?
            then History(rs, author, cls, limits) + [r.hlc]
            else History(rs, author, cls, limits)
  {
    assert (rs + [r])[..|rs|] == rs;
  }

  lemma {:induction false} RefusalsStep(rs: seq<Record>, r: Record, limits: ReaderLimits)
    ensures Refusals(rs + [r], limits) ==
            match Judge(History(rs, r.author, r.Class(), limits), r.Class(), r.hlc.wall, limits)
            case None => Refusals(rs, limits)
            case Some(why) => Refusals(rs, limits)[r.id := why]
  {
    assert (rs + [r])[..|rs|] == rs;
  }

  /// `h` is the reading of a record of this author and class.
  predicate Wrote(rs: seq<Record>, author: Id, cls: RecordClass, h: Hlc) {
    exists r :: r in rs && r.hlc == h && r.author == author && r.Class() == cls
  }

  lemma {:induction false} HistoryIsWritten(rs: seq<Record>, author: Id, cls: RecordClass, limits: ReaderLimits)
    ensures forall h :: h in History(rs, author, cls, limits) ==> Wrote(rs, author, cls, h)
  {
    if rs != [] {
      var front, r := rs[..|rs| - 1], rs[|rs| - 1];
      assert rs == front + [r];
      HistoryIsWritten(front, author, cls, limits);
      forall h | h in History(rs, author, cls, limits) ensures Wrote(rs, author, cls, h) {
        if h in History(front, author, cls, limits) {
          assert Wrote(front, author, cls, h);
        } else {
          assert r in rs && r.hlc == h;
        }
      }
    }
  }

  /// Readings accumulate in merge order.
  lemma {:induction false} HistoryIsOrdered(rs: seq<Record>, author: Id, cls: RecordClass, limits: ReaderLimits)
    requires Ascending(rs)
    ensures forall j, k :: 0 <= j < k < |History(rs, author, cls, limits)| ==>
              !History(rs, author, cls, limits)[k].Less(History(rs, author, cls, limits)[j])
  {
    if rs != [] {
      var front, r := rs[..|rs| - 1], rs[|rs| - 1];
      HistoryIsOrdered(front, author, cls, limits);
      HistoryIsWritten(front, author, cls, limits);
      FrontHoldsTheRest(rs);
      var before := History(front, author, cls, limits);
      forall j | 0 <= j < |before| ensures !r.hlc.Less(before[j]) {
        assert before[j] in before;
        assert Wrote(front, author, cls, before[j]);
      }
    }
  }

  /// In order, the last admitted reading is the one nearest to anything later.
  lemma {:induction false} CrowdedByTheLast(
      rs: seq<Record>, author: Id, cls: RecordClass, limits: ReaderLimits, at: i64, interval: i64)
    requires Ascending(rs)
    ensures var h := History(rs, author, cls, limits);
            Crowded(h, at, interval) <==> h != [] && SaturatingSub(at, h[|h| - 1].wall) < interval
  {
    HistoryIsOrdered(rs, author, cls, limits);
    var h := History(rs, author, cls, limits);
    if Crowded(h, at, interval) {
      var k :| 0 <= k < |h| && SaturatingSub(at, h[k].wall) < interval;
      assert k < |h| - 1 ==> !h[|h| - 1].Less(h[k]);
    }
  }

  /// The source's first table: admitted readings per author and class.
  type Seen = map<(Id, RecordClass), seq<Hlc>>

  function Window(seen: Seen, author: Id, cls: RecordClass): seq<Hlc> {
    if (author, cls) in seen then seen[(author, cls)] else []
  }

  function Last(history: seq<Hlc>): Option<Hlc> {
    if history == [] then None else Some(history[|history| - 1])
  }

  function Lookup<V>(m: map<Id, V>, key: Id): Option<V> {
    if key in m then Some(m[key]) else None
  }

  /// What the first table holds after walking `rs`.
  ghost predicate TracksSeen(seen: Seen, rs: seq<Record>, limits: ReaderLimits) {
    forall a: Id, c :: limits.CeilingFor(c).Some? ==> Window(seen, a, c) == History(rs, a, c, limits)
  }

  /// What the second holds, where message-class records are counted at all.
  ghost predicate TracksLast(last: map<Id, Hlc>, rs: seq<Record>, limits: ReaderLimits) {
    limits.CeilingFor(MessageClass).Some? ==>
      forall a: Id :: Lookup(last, a) == Last(History(rs, a, MessageClass, limits))
  }

  /// A record that is not admitted changes no history.
  lemma {:induction false} TracksRefused(
      seen: Seen, last: map<Id, Hlc>, rs: seq<Record>, r: Record, limits: ReaderLimits)
    requires TracksSeen(seen, rs, limits) && TracksLast(last, rs, limits)
    requires limits.CeilingFor(r.Class()).None?
             || Judge(History(rs, r.author, r.Class(), limits), r.Class(), r.hlc.wall, limits).Some?
    ensures TracksSeen(seen, rs + [r], limits) && TracksLast(last, rs + [r], limits)
  {
    forall a: Id, c | limits.CeilingFor(c).Some?
      ensures History(rs + [r], a, c, limits) == History(rs, a, c, limits)
    {
      HistoryStep(rs, r, a, c, limits);
    }
  }

  lemma {:induction false} SeenAdmitted(seen: Seen, seen': Seen, rs: seq<Record>, r: Record, limits: ReaderLimits)
    requires TracksSeen(seen, rs, limits)
    requires limits.CeilingFor(r.Class()).Some?
    requires Judge(History(rs, r.author, r.Class(), limits), r.Class(), r.hlc.wall, limits).None?
    requires seen' == seen[(r.author, r.Class()) := Window(seen, r.author, r.Class()) + [r.hlc]]
    ensures TracksSeen(seen', rs + [r], limits)
  {
    forall a: Id, c | limits.CeilingFor(c).Some?
      ensures Window(seen', a, c) == History(rs + [r], a, c, limits)
    {
      HistoryStep(rs, r, a, c, limits);
      assert Window(seen, a, c) == History(rs, a, c, limits);
    }
  }

  lemma {:induction false} LastAdmitted(
      last: map<Id, Hlc>, last': map<Id, Hlc>, rs: seq<Record>, r: Record, limits: ReaderLimits)
    requires TracksLast(last, rs, limits)
    requires limits.CeilingFor(r.Class()).Some?
    requires Judge(History(rs, r.author, r.Class(), limits), r.Class(), r.hlc.wall, limits).None?
    requires last' == if r.Class().MessageClass? then last[r.author := r.hlc] else last
    ensures TracksLast(last', rs + [r], limits)
  {
    if limits.CeilingFor(MessageClass).Some? {
      forall a: Id ensures Lookup(last', a) == Last(History(rs + [r], a, MessageClass, limits)) {
        HistoryStep(rs, r, a, MessageClass, limits);
        assert Lookup(last, a) == Last(History(rs, a, MessageClass, limits));
      }
    }
  }

  /// What the source asks of its tables about one record.
  predicate TooSoonByTable(last: map<Id, Hlc>, r: Record, limits: ReaderLimits) {
    && r.Class().MessageClass? && limits.slowmodeSeconds > 0
    && r.author in last && SaturatingSub(r.hlc.wall, last[r.author].wall) < limits.Interval()
  }

  lemma {:induction false} TablesJudge(seen: Seen, last: map<Id, Hlc>, rs: seq<Record>, r: Record, limits: ReaderLimits)
    requires Ascending(rs) && limits.CeilingFor(r.Class()).Some?
    requires TracksSeen(seen, rs, limits) && TracksLast(last, rs, limits)
    ensures Judge(History(rs, r.author, r.Class(), limits), r.Class(), r.hlc.wall, limits) ==
            if TooSoonByTable(last, r, limits) then Some(Slowmode)
            else if CountAfter(Window(seen, r.author, r.Class()), SaturatingSub(r.hlc.wall, RATE_WINDOW_MILLIS))
                    >= limits.CeilingFor(r.Class()).value then Some(TooFast)
            else None
  {
    var h := History(rs, r.author, r.Class(), limits);
    assert Window(seen, r.author, r.Class()) == h;
    if r.Class().MessageClass? {
      CrowdedByTheLast(rs, r.author, r.Class(), limits, r.hlc.wall, limits.Interval());
      assert Lookup(last, r.author) == Last(h);
    }
  }

  /// The ids of the records dated too far ahead.
  function HeldIds(rs: seq<Record>, limits: ReaderLimits, now: i64): (held: set<Id>)
    ensures forall id :: id in held <==> exists r :: r in rs && IsHeld(r, limits, now) && r.id == id
  {
    set r | r in rs && IsHeld(r, limits, now) :: r.id
  }

  lemma {:induction false} HeldStep(rs: seq<Record>, r: Record, limits: ReaderLimits, now: i64)
    ensures HeldIds(rs + [r], limits, now) == HeldIds(rs, limits, now) + if IsHeld(r, limits, now) then {r.id} else {}
  {
  }

  lemma {:induction false} NothingYet(limits: ReaderLimits, now: i64)
    ensures Refusals([], limits) == map[] && HeldIds([], limits, now) == {}
    ensures TracksSeen(map[], [], limits) && TracksLast(map[], [], limits)
  {
  }

  /// A prefix of an ascending collection is one.
  lemma {:induction false} AscendingPrefix(rs: seq<Record>, n: nat)
    requires Ascending(rs) && n <= |rs|
    ensures Ascending(rs[..n])
  {
  }

  /// What one turn of the loop does to the refusals and the two tables.
  predicate Turn(
    seen: Seen, last: map<Id, Hlc>, refused: map<Id, Rejection>,
    seen': Seen, last': map<Id, Hlc>, refused': map<Id, Rejection>, r: Record, limits: ReaderLimits)
  {
    var ceiling := limits.CeilingFor(r.Class());
    var window := Window(seen, r.author, r.Class());
    if ceiling.None? then
      seen' == seen && last' == last && refused' == refused
    else if TooSoonByTable(last, r, limits) then
      seen' == seen && last' == last && refused' == refused[r.id := Slowmode]
    else if CountAfter(window, SaturatingSub(r.hlc.wall, RATE_WINDOW_MILLIS)) >= ceiling.value then
      seen' == seen && last' == last && refused' == refused[r.id := TooFast]
    else
      && seen' == seen[(r.author, r.Class()) := window + [r.hlc]]
      && last' == (if r.Class().MessageClass? then last[r.author := r.hlc] else last)
      && refused' == refused
  }

  lemma {:induction false} TurnTracks(
    seen: Seen, last: map<Id, Hlc>, refused: map<Id, Rejection>,
    seen': Seen, last': map<Id, Hlc>, refused': map<Id, Rejection>,
    rs: seq<Record>, r: Record, limits: ReaderLimits)
    requires Ascending(rs)
    requires TracksSeen(seen, rs, limits) && TracksLast(last, rs, limits) && refused == Refusals(rs, limits)
    requires Turn(seen, last, refused, seen', last', refused', r, limits)
    ensures TracksSeen(seen', rs + [r], limits) && TracksLast(last', rs + [r], limits)
    ensures refused' == Refusals(rs + [r], limits)
  {
    RefusalsStep(rs, r, limits);
    if limits.CeilingFor(r.Class()).None? {
      TracksRefused(seen, last, rs, r, limits);
    } else {
      TablesJudge(seen, last, rs, r, limits);
      if Judge(History(rs, r.author, r.Class(), limits), r.Class(), r.hlc.wall, limits).Some? {
        TracksRefused(seen, last, rs, r, limits);
      } else {
        SeenAdmitted(seen, seen', rs, r, limits);
        LastAdmitted(last, last', rs, r, limits);
      }
    }
  }

  /// The whole-set pass: one walk in merge order, keeping the admitted readings
  /// per author and class and the last admitted message per author.
  method WithheldOf(records: seq<Record>, limits: ReaderLimits, now: i64) returns (out: Withheld)
    requires Ascending(records)
    ensures out.refused == Refusals(records, limits)
    ensures out.held == HeldIds(records, limits, now)
    ensures forall id :: id in out.held <==>
              I64_MIN <= now + limits.maxFutureSkewMillis <= I64_MAX
              && exists r :: r in records && r.id == id && r.hlc.wall > now + limits.maxFutureSkewMillis
  {
    var refused: map<Id, Rejection>, held: set<Id> := map[], {};
    var seen: Seen, lastMessage: map<Id, Hlc> := map[], map[];
    NothingYet(limits, now);
    hide Refusals, History, HeldIds, TracksSeen, TracksLast, CountAfter, Ascending;
    ghost var done: seq<Record> := [];
    for n := 0 to |records|
      invariant done == records[..n]
      invariant refused == Refusals(done, limits)
      invariant held == HeldIds(done, limits, now)
      invariant TracksSeen(seen, done, limits) && TracksLast(lastMessage, done, limits)
    {
      var record := records[n];
      var cls, at := record.Class(), record.hlc.wall;
      ghost var seen', last', refused' := seen, lastMessage, refused;

      var horizon := CheckedAdd(now, limits.maxFutureSkewMillis);
      if horizon.Some? && at > horizon.value {
        held := held + {record.id};
      }
      HeldStep(done, record, limits, now);
      var ceiling := limits.CeilingFor(cls);
      if ceiling.Some? {
        if cls.MessageClass? && limits.slowmodeSeconds > 0 && record.author in lastMessage
           && SaturatingSub(at, lastMessage[record.author].wall) < limits.Interval()
        {
          refused := refused[record.id := Slowmode];
        } else {
          var window := Window(seen, record.author, cls);
          var inside := CountAfter(window, SaturatingSub(at, RATE_WINDOW_MILLIS));
          if inside >= ceiling.value {
            refused := refused[record.id := TooFast];
          } else {
            seen := seen[(record.author, cls) := window + [record.hlc]];
            if cls.MessageClass? {
              lastMessage := lastMessage[record.author := record.hlc];
            }
          }
        }
      }
      AscendingPrefix(records, n);
      TurnTracks(seen', last', refused', seen, lastMessage, refused, done, record, limits);
      done := done + [record];
    }
    assert done == records;
    out := Withheld(refused, held);
  }
}
