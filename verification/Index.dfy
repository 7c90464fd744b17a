/**
  Keeping a channel's stored verdicts up to date as records arrive
  (`fold_into`, crates/kols-node/src/store.rs): nothing new, no work; arrivals
  after everything folded, folded on the end; anything reaching back, or a change
  of limits, and the channel is folded again.
 */
module Index {
  import opened Prelude
  import opened Records
  import opened Limits
  import opened Projection
  import opened Refinement

  /** The limits a channel's verdicts were folded under. */
  datatype Under = Under(messageRate: i64, reactionRate: i64, slowmode: u32)

  function UnderOf(limits: ReaderLimits): Under {
    Under(limits.messageRatePerMinute, limits.reactionRatePerMinute, limits.slowmodeSeconds)
  }

  /// Those three are all a stored verdict depends on.
  lemma {:induction false} FoldReadsOnlyUnder(rs: seq<Record>, a: ReaderLimits, b: ReaderLimits)
    requires UnderOf(a) == UnderOf(b)
    ensures Folded(rs, a) == Folded(rs, b)
  {
    if rs != [] {
      FoldReadsOnlyUnder(rs[..|rs| - 1], a, b);
    }
  }

  function RowCursor(row: Row): Cursor {
    Cursor(row.hlc, row.id)
  }

  /// The greatest position among the rows.
  function Newest(t: Table): (newest: Option<Cursor>)
    ensures t == [] <==> newest.None?
    ensures forall k :: 0 <= k < |t| ==> !newest.value.Less(RowCursor(t[k]))
    ensures newest.Some? ==> exists k :: 0 <= k < |t| && RowCursor(t[k]) == newest.value
  {
    if t == [] then None
    else
      var before, last := Newest(t[..|t| - 1]), RowCursor(t[|t| - 1]);
      if before.Some? && last.Less(before.value) then before else Some(last)
  }

  /** One channel's record files and the verdicts stored beside them. */
  class ChannelIndex {
    /// The record files, as `Store::records` reads them: in merge order.
    var files: seq<Record>
    /// What the arrival log names beyond what has been folded in.
    var pending: seq<Record>
    var table: Table
    var under: Option<Under>
    /// The records the table was folded from, and the limits it was folded by.
    ghost var done: seq<Record>
    ghost var bounds: ReaderLimits

    ghost predicate Valid()
      reads this
    {
      && Ascending(files) && FaithfulIds(files)
      && Ascending(done)
      && (forall r :: r in files <==> r in done || r in pending)
      && (if under.None? then done == [] && table == []
          else table == Folded(done, bounds) && under.value == UnderOf(bounds))
    }

    constructor ()
      ensures Valid() && files == [] && pending == [] && table == []
    {
      files, pending, table, under := [], [], [], None;
      done, bounds := [], ReaderLimits(0, 0, 0, 0, 0);
    }

    /// A record is stored, and named in the arrival log.
    method Arrive(r: Record)
      requires Valid() && FaithfulIds(files + [r])
      modifies this
      ensures Valid()
      ensures files == Records.Insert(old(files), r) && table == old(table) && under == old(under)
      ensures forall x :: x in files <==> x in old(files) || x == r
    {
      forall x | x in files && x.Position() == r.Position() ensures x == r {
        assert x in files + [r] && r in files + [r];
      }
      FaithfulOver(files + [r], Records.Insert(files, r));
      files := Records.Insert(files, r);
      pending := pending + [r];
    }

    /// Brings the stored verdicts up to date.
    method FoldInto(limits: ReaderLimits)
      requires Valid()
      modifies this
      ensures Valid()
      ensures files == old(files) && pending == []
      ensures table == Folded(files, limits)
    {
      hide Folded, Decide, Newest, Ascending, FaithfulIds, Missing, Filter;
      EmptyFold(bounds);
      EmptyFold(limits);
      if under == Some(UnderOf(limits)) {
        FoldReadsOnlyUnder(done, bounds, limits);
      }
      var stale := under.Some? && under.value != UnderOf(limits);
      if !stale && pending == [] {
        AscendingIsUnique(files, done);
        return;
      }
      var missing := Missing(pending, table);
      var newest := Newest(table);
      if newest.Some? && missing != [] && !newest.value.Less(missing[0].Position()) {
        stale := true;
      }
      if stale {
        assert [] + files == files;
        table := Append([], files, [], limits);
      } else {
        MissingCompletes(files, done, pending, table, bounds);
        table := Append(done, missing, table, limits);
      }
      under, pending := Some(UnderOf(limits)), [];
      done, bounds := files, limits;
    }
  }

  /// Folded on the end, the missing records complete the channel.
  lemma {:induction false} MissingCompletes(
    files: seq<Record>, done: seq<Record>, pending: seq<Record>, t: Table, limits: ReaderLimits)
    requires Ascending(files) && FaithfulIds(files) && Ascending(done)
    requires forall r :: r in files <==> r in done || r in pending
    requires t == Folded(done, limits)
    requires var missing := Missing(pending, t);
             Newest(t).None? || missing == [] || Newest(t).value.Less(missing[0].Position())
    ensures done + Missing(pending, t) == files
  {
    hide Folded, Newest, Ascending, FaithfulIds, Missing;
    FaithfulOver(files, done);
    FoldedIds(done, limits);
    MissingIsTheRest(files, done, pending, t);
    AppendingIsAscending(done, Missing(pending, t), t);
    AscendingIsUnique(done + Missing(pending, t), files);
  }

  lemma {:induction false} EmptyFold(limits: ReaderLimits)
    ensures Folded([], limits) == [] && Newest([]).None?
  {
  }

  /// The ids a folded table holds are those of the records folded.
  lemma {:induction false} FoldedIds(rs: seq<Record>, limits: ReaderLimits)
    requires Ascending(rs) && FaithfulIds(rs)
    ensures |Folded(rs, limits)| == |rs|
    ensures forall i :: 0 <= i < |rs| ==> RowCursor(Folded(rs, limits)[i]) == rs[i].Position()
    ensures forall id :: Holds(Folded(rs, limits), id) <==> exists i :: 0 <= i < |rs| && rs[i].id == id
  {
    FoldedCursors(rs, limits);
    var t := Folded(rs, limits);
    forall id | Holds(t, id) ensures exists i :: 0 <= i < |rs| && rs[i].id == id {
      var k :| 0 <= k < |t| && t[k].id == id;
      assert rs[k].id == id;
    }
    forall id | exists i :: 0 <= i < |rs| && rs[i].id == id ensures Holds(t, id) {
      var i :| 0 <= i < |rs| && rs[i].id == id;
      assert t[i].id == id;
    }
  }

  lemma {:induction false} FoldedCursors(rs: seq<Record>, limits: ReaderLimits)
    requires Ascending(rs) && FaithfulIds(rs)
    ensures |Folded(rs, limits)| == |rs|
    ensures forall i :: 0 <= i < |rs| ==> RowCursor(Folded(rs, limits)[i]) == rs[i].Position()
  {
    hide Decide, Store;
    FoldedStep(rs, limits);
    if rs != [] {
      FoldedCursors(rs[..|rs| - 1], limits);
    }
  }

  /// The pending arrivals the table does not hold, sorted.
  function Missing(pending: seq<Record>, t: Table): (missing: seq<Record>)
    ensures Ascending(missing)
  {
    InsertAll([], Filter(pending, (r: Record) => !Holds(t, r.id)))
  }

  lemma {:induction false} MissingIsTheRest(files: seq<Record>, done: seq<Record>, pending: seq<Record>, t: Table)
    requires FaithfulIds(files)
    requires forall r :: r in files <==> r in done || r in pending
    requires forall id :: Holds(t, id) <==> exists i :: 0 <= i < |done| && done[i].id == id
    ensures forall r :: r in Missing(pending, t) <==> r in files && r !in done
  {
    var p := (r: Record) => !Holds(t, r.id);
    var rest := Filter(pending, p);
    FilterMembers(pending, p);
    FilterSame(pending, p, (r: Record) => !Holds(t, r.id));
    FaithfulOver(files, [] + rest);
    InsertAllMembers([], rest);
    forall r | r in pending && Holds(t, r.id) ensures r in done {
      var i :| 0 <= i < |done| && done[i].id == r.id;
      assert done[i] in files && r in files;
    }
    forall r | r in done ensures Holds(t, r.id) {
      var i :| 0 <= i < |done| && done[i] == r;
    }
  }

  /// Past the newest row, the missing records extend what was folded.
  lemma {:induction false} AppendingIsAscending(done: seq<Record>, missing: seq<Record>, t: Table)
    requires Ascending(done) && Ascending(missing) && |t| == |done|
    requires forall i :: 0 <= i < |done| ==> RowCursor(t[i]) == done[i].Position()
    requires Newest(t).None? || missing == [] || Newest(t).value.Less(missing[0].Position())
    ensures Ascending(done + missing)
  {
    forall i, j | 0 <= i < |done| && 0 <= j < |missing| ensures done[i].Position().Less(missing[j].Position()) {
      assert !Newest(t).value.Less(RowCursor(t[i]));
      assert j == 0 || missing[0].Position().Less(missing[j].Position());
    }
  }

  /// The loop that decides and stores each record not already held.
  method Append(ghost base: seq<Record>, fold: seq<Record>, t: Table, limits: ReaderLimits) returns (out: Table)
    requires Ascending(base + fold) && FaithfulIds(base + fold)
    requires t == Folded(base, limits)
    ensures out == Folded(base + fold, limits)
  {
    hide Folded, Decide, Store, Holds, Ascending, FaithfulIds;
    ghost var all := base + fold;
    out := t;
    assert all[..|base|] == base;
    for k := 0 to |fold|
      invariant out == Folded(all[..|base| + k], limits)
    {
      PrefixIsKept(all, |base| + k, limits);
      if !Holds(out, fold[k].id) {
        out := Store(out, fold[k], Decide(out, fold[k], limits));
      }
    }
    assert all[..|base| + |fold|] == all;
  }

  /// Folding one record more: it is not held yet, and storing it is the next fold.
  lemma {:induction false} PrefixIsKept(rs: seq<Record>, n: nat, limits: ReaderLimits)
    requires Ascending(rs) && FaithfulIds(rs) && n < |rs|
    ensures !Holds(Folded(rs[..n], limits), rs[n].id)
    ensures Folded(rs[..n + 1], limits)
            == Store(Folded(rs[..n], limits), rs[n], Decide(Folded(rs[..n], limits), rs[n], limits))
  {
    FaithfulOver(rs, rs[..n]);
    FoldedIds(rs[..n], limits);
    forall i: nat | i < n ensures rs[..n][i].id != rs[n].id {
      NoRepeatedId(rs, i, n);
    }
    assert rs[..n + 1][..n] == rs[..n];
  }
}
