/**
  The greedy pass disturbs nothing it does not refuse: what a record's verdict
  depends on, and what survives when records are taken away.
 */
module Stability {
  import opened Prelude
  import opened Records
  import opened Limits

  predicate SameKey(a: Record, b: Record) {
    a.author == b.author && a.Class() == b.Class()
  }

  /// A thinning that takes away only refused records, or whole authors and
  /// classes: whoever keeps anything keeps all of theirs that stands.
  ghost predicate Fair(rs: seq<Record>, p: Record -> bool, limits: ReaderLimits) {
    forall i: nat, j: nat | i < |rs| && j < |rs| && p(rs[j]) && SameKey(rs[i], rs[j]) ::
      VerdictAt(rs, i, limits).None? ==> p(rs[i])
  }

  /// Taking refused records away leaves the standing readings as they were.
  lemma {:induction false} HistoryThinned(
      rs: seq<Record>, p: Record -> bool, author: Id, cls: RecordClass, limits: ReaderLimits)
    requires forall i: nat | i < |rs| && rs[i].author == author && rs[i].Class() == cls ::
               VerdictAt(rs, i, limits).None? ==> p(rs[i])
    ensures History(Filter(rs, p), author, cls, limits) == History(rs, author, cls, limits)
  {
    if rs != [] {
      var n := |rs| - 1;
      var front, r := rs[..n], rs[n];
      forall i: nat | i < n && front[i].author == author && front[i].Class() == cls && VerdictAt(front, i, limits).None?
        ensures p(front[i])
      {
        PrefixVerdict(rs, n, i, limits);
      }
      HistoryThinned(front, p, author, cls, limits);
      assert rs == front + [r];
      HistoryStep(front, r, author, cls, limits);
      if p(r) {
        HistoryStep(Filter(front, p), r, author, cls, limits);
      }
    }
  }

  /// The verdict on `rs[i]` when only what `p` keeps comes before it.
  function VerdictAmong(rs: seq<Record>, p: Record -> bool, i: nat, limits: ReaderLimits): Option<Rejection>
    requires i < |rs|
  {
    Judge(History(Filter(rs[..i], p), rs[i].author, rs[i].Class(), limits), rs[i].Class(), rs[i].hlc.wall, limits)
  }

  /// Every record kept has the verdict it had.
  ghost predicate KeepsVerdicts(rs: seq<Record>, p: Record -> bool, limits: ReaderLimits) {
    forall i: nat | i < |rs| && p(rs[i]) :: VerdictAmong(rs, p, i, limits) == VerdictAt(rs, i, limits)
  }

  lemma {:induction false} VerdictWhereKept(rs: seq<Record>, p: Record -> bool, i: nat, limits: ReaderLimits)
    requires i < |rs| && p(rs[i])
    ensures |Filter(rs[..i], p)| < |Filter(rs, p)|
    ensures Filter(rs, p)[|Filter(rs[..i], p)|] == rs[i]
    ensures VerdictAt(Filter(rs, p), |Filter(rs[..i], p)|, limits) == VerdictAmong(rs, p, i, limits)
  {
    FilterAt(rs, p, i);
  }

  /// A fair thinning keeps the verdict of every record it keeps.
  lemma {:induction false} FairKeepsVerdicts(rs: seq<Record>, p: Record -> bool, limits: ReaderLimits)
    requires Fair(rs, p, limits)
    ensures KeepsVerdicts(rs, p, limits)
  {
    forall i: nat | i < |rs| && p(rs[i]) ensures VerdictAmong(rs, p, i, limits) == VerdictAt(rs, i, limits) {
      forall k: nat | k < i && rs[..i][k].author == rs[i].author && rs[..i][k].Class() == rs[i].Class()
                      && VerdictAt(rs[..i], k, limits).None?
        ensures p(rs[..i][k])
      {
        PrefixVerdict(rs, i, k, limits);
        assert SameKey(rs[k], rs[i]);
      }
      HistoryThinned(rs[..i], p, rs[i].author, rs[i].Class(), limits);
    }
  }

  /// What the map of refusals says of one record is its verdict.
  ghost predicate Recorded(refusals: map<Id, Rejection>, id: Id, verdict: Option<Rejection>) {
    if id in refusals then verdict == Some(refusals[id]) else verdict == None
  }

  /// The refusals, read back record by record.
  lemma {:induction false} RefusalsByRecord(rs: seq<Record>, limits: ReaderLimits)
    requires Ascending(rs) && FaithfulIds(rs)
    ensures forall i: nat | i < |rs| :: Recorded(Refusals(rs, limits), rs[i].id, VerdictAt(rs, i, limits))
    ensures forall id :: id in Refusals(rs, limits) ==> exists i: nat :: i < |rs| && rs[i].id == id
  {
    hide VerdictAt, History;
    if rs != [] {
      var n := |rs| - 1;
      var front := rs[..n];
      RefusalsByRecord(front, limits);
      var before, after := Refusals(front, limits), Refusals(rs, limits);
      forall i: nat | i < n ensures front[i].id != rs[n].id {
        NoRepeatedId(rs, i, n);
      }
      forall i: nat | i < |rs| ensures Recorded(after, rs[i].id, VerdictAt(rs, i, limits)) {
        if i < n {
          PrefixVerdict(rs, n, i, limits);
          assert Recorded(before, front[i].id, VerdictAt(front, i, limits));
        }
      }
      forall id | id in after ensures exists i: nat :: i < |rs| && rs[i].id == id {
        if id in before {
          var i: nat :| i < n && front[i].id == id;
          assert rs[i].id == id;
        } else {
          assert rs[n].id == id;
        }
      }
    }
  }

  predicate Kept(rs: seq<Record>, p: Record -> bool, id: Id) {
    exists i :: 0 <= i < |rs| && rs[i].id == id && p(rs[i])
  }

  /// A thinning that keeps verdicts refuses what it keeps for the same reasons as
  /// before, and nothing else.
  lemma {:induction false} KeptVerdictsAreKeptRefusals(rs: seq<Record>, p: Record -> bool, limits: ReaderLimits)
    requires Ascending(rs) && FaithfulIds(rs) && KeepsVerdicts(rs, p, limits)
    ensures Refusals(Filter(rs, p), limits) ==
            map id | id in Refusals(rs, limits) && Kept(rs, p, id) :: Refusals(rs, limits)[id]
  {
    hide Refusals, VerdictAt, VerdictAmong, History, Filter, Ascending, FaithfulIds;
    var kept := Filter(rs, p);
    var before, after := Refusals(rs, limits), Refusals(kept, limits);
    FilterAscending(rs, p);
    FilterFaithful(rs, p);
    RefusalsByRecord(rs, limits);
    RefusalsByRecord(kept, limits);
    forall id | id in after ensures id in before && Kept(rs, p, id) && before[id] == after[id] {
      var j: nat :| j < |kept| && kept[j].id == id;
      var i := FilterFrom(rs, p, j);
      VerdictWhereKept(rs, p, i, limits);
    }
    forall id | id in before && Kept(rs, p, id) ensures id in after {
      var i :| 0 <= i < |rs| && rs[i].id == id && p(rs[i]);
      VerdictWhereKept(rs, p, i, limits);
      assert kept[|Filter(rs[..i], p)|].id == id;
    }
  }

  /// So a fair thinning refuses what it keeps as before.
  lemma {:induction false} FairThinningChangesNoVerdict(rs: seq<Record>, p: Record -> bool, limits: ReaderLimits)
    requires Ascending(rs) && FaithfulIds(rs) && Fair(rs, p, limits)
    ensures Refusals(Filter(rs, p), limits) ==
            map id | id in Refusals(rs, limits) && Kept(rs, p, id) :: Refusals(rs, limits)[id]
  {
    hide Refusals, Filter, Ascending, FaithfulIds, Fair, KeepsVerdicts;
    FairKeepsVerdicts(rs, p, limits);
    KeptVerdictsAreKeptRefusals(rs, p, limits);
  }

  function Except(dropped: set<Id>): Record -> bool {
    (r: Record) => r.id !in dropped
  }

  function By(author: Id, cls: RecordClass): Record -> bool {
    (r: Record) => r.author == author && r.Class() == cls
  }

  /// Taking away any of the refused records un-refuses nobody and refuses nobody.
  lemma {:induction false} DroppingRefusedRecords(rs: seq<Record>, dropped: set<Id>, limits: ReaderLimits)
    requires Ascending(rs) && FaithfulIds(rs)
    requires dropped <= Refusals(rs, limits).Keys
    ensures Refusals(Filter(rs, Except(dropped)), limits) == Refusals(rs, limits) - dropped
  {
    hide Refusals, VerdictAt, History, Filter, Ascending, FaithfulIds;
    var p := Except(dropped);
    RefusalsByRecord(rs, limits);
    FairThinningChangesNoVerdict(rs, p, limits);
    forall id | id in Refusals(rs, limits) ensures Kept(rs, p, id) <==> id !in dropped {
      var i: nat :| i < |rs| && rs[i].id == id;
      assert p(rs[i]) <==> id !in dropped;
    }
  }

  /// Run again over what stands, the pass refuses nothing.
  lemma {:induction false} SurvivorsStand(rs: seq<Record>, limits: ReaderLimits)
    requires Ascending(rs) && FaithfulIds(rs)
    ensures Refusals(Filter(rs, Except(Refusals(rs, limits).Keys)), limits) == map[]
  {
    DroppingRefusedRecords(rs, Refusals(rs, limits).Keys, limits);
  }

  /// One author's verdicts in one class are decided by that author's records of
  /// that class alone, whatever everybody else wrote.
  lemma {:induction false} AuthorsAreIndependent(rs: seq<Record>, author: Id, cls: RecordClass, limits: ReaderLimits)
    requires Ascending(rs) && FaithfulIds(rs)
    ensures Refusals(Filter(rs, By(author, cls)), limits) ==
            map id | id in Refusals(rs, limits) && Kept(rs, By(author, cls), id) :: Refusals(rs, limits)[id]
  {
    FairThinningChangesNoVerdict(rs, By(author, cls), limits);
  }
}
