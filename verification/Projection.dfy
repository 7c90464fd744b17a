/**
  The stored form of the rate pass: one verdict per record, decided from the rows
  already stored (crates/kols-store/src/verdict.rs, crates/kols-store/src/schema.rs).
 */
module Projection {
  import opened Prelude
  import opened Records
  import opened Limits

  datatype Verdict = Admitted | OverRate | TooSoon {
    /// How a reader is told about it.
    function Why(): Option<Rejection> {
      match this
      case Admitted => None
      case OverRate => Some(TooFast)
      case TooSoon => Some(Slowmode)
    }
  }

  datatype Row = Row(id: Id, channel: Id, author: Id, cls: RecordClass, hlc: Hlc, verdict: Verdict)

  function RowOf(r: Record, verdict: Verdict): Row {
    Row(r.id, r.channel, r.author, r.Class(), r.hlc, verdict)
  }

  type Table = seq<Row>

  predicate Holds(t: Table, id: Id) {
    exists k :: 0 <= k < |t| && t[k].id == id
  }

  /// `INSERT OR REPLACE`, keyed by id.
  function Store(t: Table, r: Record, verdict: Verdict): Table {
    Filter(t, (row: Row) => row.id != r.id) + [RowOf(r, verdict)]
  }

  /// The rows of a record's own channel, author and class.
  predicate Alike(row: Row, r: Record) {
    row.channel == r.channel && row.author == r.author && row.cls == r.Class()
  }

  /// The readings `admitted_since` answers with: admitted rows of the record's
  /// channel, author and class strictly after `since`.
  function AdmittedSince(t: Table, r: Record, since: i64): seq<Hlc> {
    if t == [] then []
    else
      var before, row := AdmittedSince(t[..|t| - 1], r, since), t[|t| - 1];
      if Alike(row, r) && row.hlc.wall > since && row.verdict == Admitted then before + [row.hlc] else before
  }

  function CountEarlier(readings: seq<Hlc>, at: Hlc): nat {
    if readings == [] then 0
    else CountEarlier(readings[..|readings| - 1], at) + if readings[|readings| - 1].Less(at) then 1 else 0
  }

  /// One record's verdict, from the rows already stored.
  function Decide(t: Table, r: Record, limits: ReaderLimits): Verdict {
    match r.Class()
    case ControlClass => Admitted
    case ReservedClass => Admitted
    case _ =>
      var ceiling := if r.Class().MessageClass? then limits.messageRatePerMinute else limits.reactionRatePerMinute;
      if r.Class().MessageClass? && limits.slowmodeSeconds > 0
         && CountEarlier(AdmittedSince(t, r, SaturatingSub(r.hlc.wall, limits.Interval())), r.hlc) > 0 then
        TooSoon
      else if ceiling <= 0 then
        Admitted
      else if CountEarlier(AdmittedSince(t, r, SaturatingSub(r.hlc.wall, RATE_WINDOW_MILLIS)), r.hlc) >= ceiling then
        OverRate
      else
        Admitted
  }

  /// The table after deciding and storing every record of `rs` in turn.
  function Folded(rs: seq<Record>, limits: ReaderLimits): Table {
    if rs == [] then []
    else
      var before, r := Folded(rs[..|rs| - 1], limits), rs[|rs| - 1];
      Store(before, r, Decide(before, r, limits))
  }

  // ------------------------------------------------------------------------
  // What a decision reads
  // ------------------------------------------------------------------------

  function Precedes(r: Record): Row -> bool {
    (row: Row) => Alike(row, r) && row.hlc.Less(r.hlc)
  }

  /// The rows a decision about `r` may look at: its own channel, author and
  /// class, strictly earlier.
  function Earlier(t: Table, r: Record): Table {
    Filter(t, Precedes(r))
  }

  /// How many admitted rows lie after `since`.
  function Tally(t: Table, since: int): nat {
    if t == [] then 0
    else Tally(t[..|t| - 1], since)
         + if t[|t| - 1].verdict == Admitted && t[|t| - 1].hlc.wall > since then 1 else 0
  }

  lemma {:induction false} CountIsATally(t: Table, r: Record, since: i64)
    ensures CountEarlier(AdmittedSince(t, r, since), r.hlc) == Tally(Earlier(t, r), since)
  {
    if t != [] {
      var front, row := t[..|t| - 1], t[|t| - 1];
      CountIsATally(front, r, since);
      var a, e := AdmittedSince(front, r, since), Earlier(front, r);
      assert (a + [row.hlc])[..|a|] == a;
      assert (e + [row])[..|e|] == e;
    }
  }

  /// Storing a verdict replaces whatever was stored of that record and touches no
  /// other row.
  lemma {:induction false} StoringReplaces(t: Table, r: Record, verdict: Verdict)
    ensures forall row :: row in Store(t, r, verdict) <==> row == RowOf(r, verdict) || (row in t && row.id != r.id)
    ensures forall k :: 0 <= k < |Store(t, r, verdict)| - 1 ==> Store(t, r, verdict)[k].id != r.id
  {
    var others := (row: Row) => row.id != r.id;
    FilterMembers(t, others);
    FilterSame(t, others, (row: Row) => row.id != r.id);
    var kept := Filter(t, others);
    assert Store(t, r, verdict) == kept + [RowOf(r, verdict)];
    forall k | 0 <= k < |kept| ensures kept[k].id != r.id {
      assert kept[k] in kept;
    }
  }

  /// A row that counts against a record: admitted, of its channel, author and
  /// class, strictly before it and after `since`.
  predicate Weighs(row: Row, r: Record, since: int) {
    && row.channel == r.channel && row.author == r.author && row.cls == r.Class()
    && row.verdict == Admitted
    && row.hlc.Less(r.hlc) && row.hlc.wall > since
  }

  function Weighed(t: Table, r: Record, since: int): set<nat> {
    set k: nat | k < |t| && Weighs(t[k], r, since)
  }

  lemma {:induction false} CountIsOfRows(t: Table, r: Record, since: i64)
    ensures CountEarlier(AdmittedSince(t, r, since), r.hlc) == |Weighed(t, r, since)|
  {
    if t != [] {
      var n := |t| - 1;
      var front, row := t[..n], t[n];
      CountIsOfRows(front, r, since);
      var a := AdmittedSince(front, r, since);
      assert (a + [row.hlc])[..|a|] == a;
      assert Weighed(t, r, since) == Weighed(front, r, since) + if Weighs(row, r, since) then {n} else {};
    }
  }

  /// An `i64` no lower than the lowest.
  function AtLeast(n: int): int {
    if n < -0x8000_0000_0000_0000 then -0x8000_0000_0000_0000 else n
  }

  /// What a decision is, in the rows' own fields: too soon exactly if some row that
  /// counts is within the slowmode, set at all; over the rate exactly if not, and a
  /// rate's worth of them is within the minute.
  lemma {:induction false} DecisionsMean(t: Table, r: Record, limits: ReaderLimits)
    ensures var at, cls := r.hlc.wall, r.Class();
            var soon := cls.MessageClass? && limits.slowmodeSeconds > 0
                        && Weighed(t, r, AtLeast(at - limits.slowmodeSeconds * 1_000)) != {};
            var inMinute := |Weighed(t, r, AtLeast(at - 60_000))|;
            && (Decide(t, r, limits) == TooSoon <==> soon)
            && (Decide(t, r, limits) == OverRate <==>
                  && !soon
                  && (|| (cls.MessageClass? && 0 < limits.messageRatePerMinute <= inMinute)
                      || (cls.ReactionClass? && 0 < limits.reactionRatePerMinute <= inMinute)))
  {
    hide AdmittedSince, CountEarlier, Weighed;
    CountIsOfRows(t, r, SaturatingSub(r.hlc.wall, limits.Interval()));
    CountIsOfRows(t, r, SaturatingSub(r.hlc.wall, RATE_WINDOW_MILLIS));
  }

  lemma {:induction false} TallySplits(s: Table, t: Table, since: int)
    ensures Tally(s + t, since) == Tally(s, since) + Tally(t, since)
  {
    if t == [] {
      assert s + t == s;
    } else {
      TallySplits(s, t[..|t| - 1], since);
      assert (s + t)[..|s + t| - 1] == s + t[..|t| - 1];
    }
  }

  lemma {:induction false} TallyIgnoresOrder(s: Table, t: Table, since: int)
    requires multiset(s) == multiset(t)
    ensures Tally(s, since) == Tally(t, since)
  {
    hide Tally;
    if s == [] {
      assert |multiset(t)| == 0;
    } else {
      var x, front := s[|s| - 1], s[..|s| - 1];
      var i := LastElsewhere(s, t);
      TallyIgnoresOrder(front, t[..i] + t[i + 1..], since);
      assert s == front + [x];
      TallySplits(front, [x], since);
      TallySplits(t[..i] + [x], t[i + 1..], since);
      TallySplits(t[..i], [x], since);
      TallySplits(t[..i], t[i + 1..], since);
    }
  }

  /// A decision is settled by the strictly earlier rows of the record's own
  /// channel, author and class, in whatever order they are stored. Rows at or
  /// after it, other people's and its own change nothing.
  lemma {:induction false} DecisionsReadOnlyEarlierRows(s: Table, t: Table, r: Record, limits: ReaderLimits)
    requires multiset(Earlier(s, r)) == multiset(Earlier(t, r))
    ensures Decide(s, r, limits) == Decide(t, r, limits)
  {
    forall since: i64
      ensures CountEarlier(AdmittedSince(s, r, since), r.hlc) == CountEarlier(AdmittedSince(t, r, since), r.hlc)
    {
      CountIsATally(s, r, since);
      CountIsATally(t, r, since);
      TallyIgnoresOrder(Earlier(s, r), Earlier(t, r), since);
    }
  }

  /// So a re-fold may start anywhere: whatever is stored of `rs[k]` and later
  /// does not disturb the verdict reached at `k`.
  lemma {:induction false} RefoldFromAnywhere(before: Table, later: Table, r: Record, limits: ReaderLimits)
    requires forall k :: 0 <= k < |later| ==>
               || later[k].channel != r.channel || later[k].author != r.author || later[k].cls != r.Class()
               || !later[k].hlc.Less(r.hlc)
    ensures Decide(before + later, r, limits) == Decide(before, r, limits)
  {
    FilterConcat(before, later, Precedes(r));
    FilterNone(later, Precedes(r));
    DecisionsReadOnlyEarlierRows(before + later, before, r, limits);
  }
}
