/**
  What every reader agrees on: the same records give the same history whatever
  order they came in, and a page gives what the channel gives.
 */
module Convergence {
  import opened Prelude
  import opened Records
  import opened Limits
  import opened Projection
  import opened Refinement
  import opened Render
  import opened View

  /// What a view holds after a run of deliveries.
  function AdmitAll(
    batches: seq<seq<Record>>, placement: Placement, authority: Authority, limits: ReaderLimits): (records: seq<Record>)
    ensures Ascending(records)
  {
    if batches == [] then []
    else
      InsertAll(AdmitAll(batches[..|batches| - 1], placement, authority, limits),
                Accepted(batches[|batches| - 1], placement, authority, limits))
  }

  /// Everything delivered, in the order delivered.
  function Delivered(batches: seq<seq<Record>>): seq<Record> {
    if batches == [] then [] else Delivered(batches[..|batches| - 1]) + batches[|batches| - 1]
  }

  /// Batching is invisible.
  lemma {:induction false} AdmittedAtOnce(
    batches: seq<seq<Record>>, placement: Placement, authority: Authority, limits: ReaderLimits)
    ensures AdmitAll(batches, placement, authority, limits)
            == InsertAll([], Accepted(Delivered(batches), placement, authority, limits))
  {
    if batches != [] {
      var front, last := batches[..|batches| - 1], batches[|batches| - 1];
      AdmittedAtOnce(front, placement, authority, limits);
      FilterConcat(Delivered(front), last, Passes(placement, authority, limits));
      InsertAllConcat(
        [], Accepted(Delivered(front), placement, authority, limits), Accepted(last, placement, authority, limits));
    }
  }

  /// Two readers who were delivered the same records, in whatever order, with
  /// whatever repeats and however batched, hold the same records and at any
  /// clock reading render the same history.
  lemma {:induction false} ReadersConverge(
    mine: seq<seq<Record>>, yours: seq<seq<Record>>, placement: Placement, authority: Authority,
    limits: ReaderLimits, now: i64)
    requires FaithfulIds(Delivered(mine))
    requires forall r :: r in Delivered(mine) <==> r in Delivered(yours)
    ensures var m, y := AdmitAll(mine, placement, authority, limits), AdmitAll(yours, placement, authority, limits);
            && m == y
            && (forall r :: r in m <==> r in Delivered(mine) && Admissible(r, placement, authority, limits))
            && Rendering(m, Hidden(limits, now, Refusals(m, limits).Keys))
               == Rendering(y, Hidden(limits, now, Refusals(y, limits).Keys))
  {
    hide Check, Admissible, Ascending, FaithfulIds, Rendering, Refusals, AdmitAll, Delivered, Filter;
    AdmittedAtOnce(mine, placement, authority, limits);
    AdmittedAtOnce(yours, placement, authority, limits);
    var p := Passes(placement, authority, limits);
    var a := Accepted(Delivered(mine), placement, authority, limits);
    var b := Accepted(Delivered(yours), placement, authority, limits);
    FilterMembers(Delivered(mine), p);
    FilterMembers(Delivered(yours), p);
    forall r ensures p(r) <==> Admissible(r, placement, authority, limits) {
      CheckMeans(r, placement, authority, limits);
    }
    FaithfulOver(Delivered(mine), [] + a);
    InsertAllMembers([], a);
    InsertAllIsASetUnion([], a, b);
  }

  // ------------------------------------------------------------------------
  // Pages
  // ------------------------------------------------------------------------

  /// A selection holding everything that acts on its messages, as `Store::load`
  /// assembles one.
  ghost predicate Closed(rs: seq<Record>, p: Record -> bool) {
    forall m, r :: m in rs && m.body.Message? && p(m) && r in rs && r.body.Target() == Some(m.id) ==> p(r)
  }

  /// Scrolling to a message and loading the channel whole show the same thing:
  /// a page rendered with the refusals stored by the index is the channel's own
  /// rendering cut down to the page.
  lemma {:induction false} AnIndexedPageIsTheChannel(rs: seq<Record>, p: Record -> bool, limits: ReaderLimits, now: i64)
    requires Ascending(rs) && FaithfulIds(rs) && OneChannel(rs) && Spaced(rs) && Covers(limits) && Closed(rs, p)
    ensures Rendering(Filter(rs, p), Hidden(limits, now, TableRefusals(Folded(rs, limits)).Keys))
            == Filter(Rendering(rs, Hidden(limits, now, Refusals(rs, limits).Keys)), Among(Ids(Filter(rs, p))))
  {
    IndexAgrees(rs, limits);
    AgreementIsOfRefusals(rs, limits);
    PagesAreLocal(rs, p, Hidden(limits, now, Refusals(rs, limits).Keys));
  }
}
