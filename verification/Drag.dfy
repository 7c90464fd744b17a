/**
  Moving a channel among its siblings (crates/kols-ui/app.js): a position is
  picked between two neighbours, or the siblings are spaced out first.
 */
module Drag {
  import opened Prelude
  import opened Sidebar

  /** One call to move a channel to a position. Within its category that is one
      governance entry; into another, a change of category is written ahead of it. */
  datatype Move = Move(channel: Id, position: nat)

  const STEP := 1024

  function NotIt(channel: Id): Sibling -> bool {
    (s: Sibling) => s.id != channel
  }

  /// Where a channel asked to land before another goes: the end, if the other
  /// is not there.
  function IndexOf(siblings: seq<Sibling>, before: Option<Id>): (at: nat)
    ensures at <= |siblings|
    ensures at < |siblings| ==> before == Some(siblings[at].id)
    ensures forall k :: 0 <= k < at ==> before != Some(siblings[k].id)
  {
    if siblings == [] then 0
    else if before == Some(siblings[0].id) then 0
    else 1 + IndexOf(siblings[1..], before)
  }

  predicate AllPositioned(siblings: seq<Sibling>) {
    forall k :: 0 <= k < |siblings| ==> siblings[k].position.Some?
  }

  /// The position that needs no other channel to move, if there is one.
  function Slot(siblings: seq<Sibling>, at: nat): Option<nat>
    requires at <= |siblings|
  {
    if !AllPositioned(siblings) then None
    else if siblings == [] then Some(STEP)
    else if at == 0 then
      var hi := siblings[0].position.value;
      if hi > 0 then Some(hi / 2) else None
    else if at == |siblings| then Some(siblings[at - 1].position.value + STEP)
    else
      var lo, hi := siblings[at - 1].position.value, siblings[at].position.value;
      var mid := (lo + hi) / 2;
      if lo < mid < hi then Some(mid) else None
  }

  /// One move to each sibling, in order, a step apart.
  function Spacing(siblings: seq<Sibling>): (moves: seq<Move>)
    ensures |moves| == |siblings|
  {
    if siblings == [] then []
    else Spacing(siblings[..|siblings| - 1]) + [Move(siblings[|siblings| - 1].id, (|siblings| - 1) * STEP)]
  }

  /// The moves a drag makes.
  function Moves(siblings: seq<Sibling>, channel: Id, at: nat): seq<Move>
    requires at <= |siblings|
  {
    match Slot(siblings, at)
    case Some(position) => [Move(channel, position)]
    case None => Spacing(siblings) + [Move(channel, at * STEP + if at < |siblings| then 512 else 0)]
  }

  /// The drag of the source. `drawn` is the target list as the sidebar draws it.
  method MoveChannelTo(drawn: seq<Sibling>, channel: Id, before: Option<Id>) returns (moves: seq<Move>)
    ensures var siblings := Filter(drawn, NotIt(channel)); moves == Moves(siblings, channel, IndexOf(siblings, before))
  {
    hide Filter, IndexOf;
    var siblings := Filter(drawn, NotIt(channel));
    var at := IndexOf(siblings, before);
    var position: Option<nat> := None;
    if AllPositioned(siblings) {
      var lo := if at > 0 then siblings[at - 1].position else None;
      var hi := if at < |siblings| then siblings[at].position else None;
      if lo.None? && hi.None? {
        position := Some(STEP);
      } else if lo.None? {
        position := if hi.value > 0 then Some(hi.value / 2) else None;
      } else if hi.None? {
        position := Some(lo.value + STEP);
      } else {
        var mid := (lo.value + hi.value) / 2;
        position := if mid > lo.value && mid < hi.value then Some(mid) else None;
      }
    }
    moves := [];
    if position.None? {
      var next := 0;
      for k := 0 to |siblings|
        invariant next == k * STEP && moves == Spacing(siblings[..k])
      {
        assert siblings[..k + 1][..k] == siblings[..k];
        moves := moves + [Move(siblings[k].id, next)];
        next := next + STEP;
      }
      assert siblings[..|siblings|] == siblings;
      position := Some(at * STEP + if at < |siblings| then 512 else 0);
    }
    moves := moves + [Move(channel, position.value)];
  }

  /// Which position a slot is: 1024 in an empty list and 1024 past the last, half
  /// the first's before it, and between two neighbours the middle, rounded down.
  lemma {:induction false} SlotsAreInTheMiddle(siblings: seq<Sibling>, at: nat)
    requires at <= |siblings| && Slot(siblings, at).Some?
    ensures var p := Slot(siblings, at).value;
            && (siblings == [] ==> p == 1024)
            && (siblings != [] && at == |siblings| ==> p - siblings[at - 1].position.value == 1024)
            && (siblings != [] && at == 0 ==>
                  var hi := siblings[0].position.value; p < hi && (hi - p == p || hi - p == p + 1))
            && (0 < at < |siblings| ==>
                  var lo, hi := siblings[at - 1].position.value, siblings[at].position.value;
                  lo < p < hi && (hi - p == p - lo || hi - p == p - lo + 1))
    ensures forall k :: 0 <= k < |siblings| ==> siblings[k].position.Some?
  {
  }

  /// Where there is none, the siblings go to 0, 1024, 2048 and so on, in the order
  /// they were in, and the channel half a step past the one it was dropped before.
  lemma {:induction false} RespacingIsBySteps(siblings: seq<Sibling>, channel: Id, at: nat)
    requires at <= |siblings| && Slot(siblings, at).None?
    ensures var moves, n := Moves(siblings, channel, at), |siblings|;
            && |moves| == n + 1
            && (forall k :: 0 <= k < n ==> moves[k] == Move(siblings[k].id, 1024 * k))
            && moves[n] == Move(channel, if at < n then 1024 * at + 512 else 1024 * at)
  {
    hide Slot;
    SpacingAt(siblings);
  }

  lemma {:induction false} SpacingAt(siblings: seq<Sibling>)
    ensures forall k :: 0 <= k < |siblings| ==> Spacing(siblings)[k] == Move(siblings[k].id, 1024 * k)
  {
    if siblings != [] {
      SpacingAt(siblings[..|siblings| - 1]);
    }
  }

  // ------------------------------------------------------------------------
  // Where it lands
  // ------------------------------------------------------------------------

  /// Every position a log can carry.
  predicate Fit(moves: seq<Move>) {
    forall k :: 0 <= k < |moves| ==> moves[k].position <= U32_MAX
  }

  /// The last position the moves give a channel.
  function PositionAfter(moves: seq<Move>, s: Sibling): Option<u32>
    requires Fit(moves)
  {
    if moves == [] then s.position
    else if moves[|moves| - 1].channel == s.id then Some(moves[|moves| - 1].position)
    else PositionAfter(moves[..|moves| - 1], s)
  }

  function Applied(moves: seq<Move>, siblings: seq<Sibling>): (r: seq<Sibling>)
    requires Fit(moves)
    ensures |r| == |siblings|
    ensures forall k :: 0 <= k < |siblings| ==> r[k] == Sibling(PositionAfter(moves, siblings[k]), siblings[k].id)
  {
    if siblings == [] then []
    else
      var last := siblings[|siblings| - 1];
      Applied(moves, siblings[..|siblings| - 1]) + [Sibling(PositionAfter(moves, last), last.id)]
  }

  /// The siblings a reader draws once the entries are replayed.
  function Drawn(moves: seq<Move>, siblings: seq<Sibling>, channel: Id): seq<Id>
    requires Fit(moves)
  {
    IdsOf(Sort(Applied(moves, siblings + [Sibling(None, channel)])))
  }

  function Inserted(ids: seq<Id>, at: nat, channel: Id): seq<Id>
    requires at <= |ids|
  {
    ids[..at] + [channel] + ids[at..]
  }

  predicate Distinct(siblings: seq<Sibling>, channel: Id) {
    (forall i, j :: 0 <= i < j < |siblings| ==> siblings[i].id != siblings[j].id)
    && forall k :: 0 <= k < |siblings| ==> siblings[k].id != channel
  }

  lemma {:induction false} InsertedIsSorted(rest: seq<Sibling>, x: Sibling, at: nat)
    requires Sorted(rest) && at <= |rest|
    requires forall k :: 0 <= k < at ==> !x.Before(rest[k])
    requires forall k :: at <= k < |rest| ==> !rest[k].Before(x)
    ensures Sorted(rest[..at] + [x] + rest[at..])
  {
    var r := rest[..at] + [x] + rest[at..];
    forall i, j | 0 <= i < j < |r| ensures !r[j].Before(r[i]) {
      assert r[i] == if i < at then rest[i] else if i == at then x else rest[i - 1];
      assert r[j] == if j < at then rest[j] else if j == at then x else rest[j - 1];
    }
  }

  lemma {:induction false} InsertedIds(rest: seq<Sibling>, x: Sibling, at: nat)
    requires at <= |rest|
    ensures IdsOf(rest[..at] + [x] + rest[at..]) == Inserted(IdsOf(rest), at, x.id)
    ensures multiset(rest[..at] + [x] + rest[at..]) == multiset(rest + [x])
  {
    hide IdsOf;
    var r, ids := rest[..at] + [x] + rest[at..], Inserted(IdsOf(rest), at, x.id);
    assert rest == rest[..at] + rest[at..];
    forall k | 0 <= k < |r| ensures IdsOf(r)[k] == ids[k] {
      assert r[k] == if k < at then rest[k] else if k == at then x else rest[k - 1];
    }
  }

  /// A sibling that falls between two neighbours is drawn between them.
  lemma {:induction false} SortInserts(rest: seq<Sibling>, x: Sibling, at: nat)
    requires Sorted(rest) && at <= |rest|
    requires forall k :: 0 <= k < at ==> !x.Before(rest[k])
    requires forall k :: at <= k < |rest| ==> !rest[k].Before(x)
    ensures IdsOf(Sort(rest + [x])) == Inserted(IdsOf(rest), at, x.id)
  {
    hide Sorted, Sort, IdsOf, Inserted;
    InsertedIsSorted(rest, x, at);
    InsertedIds(rest, x, at);
    SortSorts(rest + [x]);
    SortedIsUnique(Sort(rest + [x]), rest[..at] + [x] + rest[at..]);
  }

  lemma {:induction false} OneMove(siblings: seq<Sibling>, channel: Id, position: u32)
    requires Distinct(siblings, channel)
    ensures Applied([Move(channel, position)], siblings + [Sibling(None, channel)])
            == siblings + [Sibling(Some(position), channel)]
  {
    var moves := [Move(channel, position)];
    forall s ensures PositionAfter(moves, s) == if s.id == channel then Some(position) else s.position {
      assert moves[..0] == [];
    }
  }

  lemma {:induction false} OrderedPositions(siblings: seq<Sibling>, i: nat, j: nat)
    requires Sorted(siblings) && AllPositioned(siblings) && i <= j < |siblings|
    ensures siblings[i].position.value <= siblings[j].position.value
  {
    if i < j {
      assert !siblings[j].Before(siblings[i]);
    }
  }

  /// Where a slot is found, one move is made and the channel lands exactly
  /// where it was dropped.
  lemma {:induction false} SlottedDragInserts(siblings: seq<Sibling>, channel: Id, at: nat)
    requires Sorted(siblings) && Distinct(siblings, channel) && at <= |siblings|
    requires Slot(siblings, at).Some? && Fit(Moves(siblings, channel, at))
    ensures |Moves(siblings, channel, at)| == 1
    ensures Drawn(Moves(siblings, channel, at), siblings, channel) == Inserted(IdsOf(siblings), at, channel)
  {
    hide Sorted, Sort;
    var position := Slot(siblings, at).value;
    assert Moves(siblings, channel, at)[0] == Move(channel, position);
    OneMove(siblings, channel, position);
    var x := Sibling(Some(position), channel);
    forall k | 0 <= k < at ensures !x.Before(siblings[k]) {
      OrderedPositions(siblings, k, at - 1);
    }
    forall k | at <= k < |siblings| ensures !siblings[k].Before(x) {
      OrderedPositions(siblings, at, k);
    }
    SortInserts(siblings, x, at);
  }

  /// The siblings once spaced out.
  function Spaced(siblings: seq<Sibling>): (r: seq<Sibling>)
    requires |siblings| * STEP <= U32_MAX
    ensures |r| == |siblings|
    ensures forall k :: 0 <= k < |siblings| ==> r[k] == Sibling(Some(k * STEP), siblings[k].id)
  {
    if siblings == [] then []
    else Spaced(siblings[..|siblings| - 1]) + [Sibling(Some((|siblings| - 1) * STEP), siblings[|siblings| - 1].id)]
  }

  lemma {:induction false} SpacingFits(siblings: seq<Sibling>)
    requires |siblings| * STEP <= U32_MAX
    ensures Fit(Spacing(siblings))
    ensures forall k :: 0 <= k < |siblings| ==> Spacing(siblings)[k] == Move(siblings[k].id, k * STEP)
  {
    if siblings != [] {
      SpacingFits(siblings[..|siblings| - 1]);
    }
  }

  lemma {:induction false} SpacedTo(siblings: seq<Sibling>, k: nat)
    requires |siblings| * STEP <= U32_MAX && k < |siblings|
    requires forall i, j :: 0 <= i < j < |siblings| ==> siblings[i].id != siblings[j].id
    ensures Fit(Spacing(siblings)) && PositionAfter(Spacing(siblings), siblings[k]) == Some(k * STEP)
  {
    SpacingFits(siblings);
    var n := |siblings| - 1;
    assert Spacing(siblings)[..n] == Spacing(siblings[..n]);
    if k < n {
      SpacedTo(siblings[..n], k);
    }
  }

  lemma {:induction false} RespacedIs(siblings: seq<Sibling>, channel: Id, position: u32)
    requires Distinct(siblings, channel) && |siblings| * STEP <= U32_MAX
    ensures var moves := Spacing(siblings) + [Move(channel, position)];
            Fit(moves)
            && Applied(moves, siblings + [Sibling(None, channel)])
               == Spaced(siblings) + [Sibling(Some(position), channel)]
  {
    SpacingFits(siblings);
    var moves := Spacing(siblings) + [Move(channel, position)];
    assert moves[..|siblings|] == Spacing(siblings);
    forall k | 0 <= k < |siblings| ensures PositionAfter(moves, siblings[k]) == Some(k * STEP) {
      SpacedTo(siblings, k);
    }
  }

  /// Spacing out first puts the channel past the one it was dropped on: half a
  /// step above that one's new position instead of below it.
  lemma {:induction false} RespacedDragLandsAfter(siblings: seq<Sibling>, channel: Id, at: nat)
    requires Distinct(siblings, channel) && at <= |siblings| && |siblings| * STEP <= U32_MAX
    requires Slot(siblings, at).None?
    ensures Fit(Moves(siblings, channel, at))
    ensures Drawn(Moves(siblings, channel, at), siblings, channel)
            == Inserted(IdsOf(siblings), if at < |siblings| then at + 1 else at, channel)
  {
    hide Sort, Spacing, PositionAfter, Sorted, Slot, Inserted, IdsOf, Spaced;
    var n := |siblings|;
    var position := at * STEP + if at < n then 512 else 0;
    RespacedIs(siblings, channel, position);
    var x, spaced := Sibling(Some(position), channel), Spaced(siblings);
    SpacedIsSorted(siblings);
    SortInserts(spaced, x, if at < n then at + 1 else at);
    assert IdsOf(spaced) == IdsOf(siblings);
  }

  lemma {:induction false} SpacedIsSorted(siblings: seq<Sibling>)
    requires |siblings| * STEP <= U32_MAX
    ensures Sorted(Spaced(siblings))
  {
    hide Spaced;
  }

  /// A drag onto a list, as drawn, ends where it was dropped exactly when there
  /// was room or it was dropped at the end.
  lemma {:induction false} DragLandsWhereDropped(siblings: seq<Sibling>, channel: Id, at: nat)
    requires Sorted(siblings) && Distinct(siblings, channel) && at <= |siblings|
    requires |siblings| * STEP <= U32_MAX && Fit(Moves(siblings, channel, at))
    ensures Drawn(Moves(siblings, channel, at), siblings, channel) == Inserted(IdsOf(siblings), at, channel)
            <==> Slot(siblings, at).Some? || at == |siblings|
  {
    hide Sorted, Sort, Slot, Drawn, Moves;
    if Slot(siblings, at).Some? {
      SlottedDragInserts(siblings, channel, at);
    } else {
      RespacedDragLandsAfter(siblings, channel, at);
      var ids := IdsOf(siblings);
      assert Inserted(ids, at, channel)[at] == channel;
      assert at < |ids| ==> Inserted(ids, at + 1, channel)[at] == ids[at];
    }
  }

  /// And there is no room exactly when a sibling was never positioned, the first
  /// is at zero, or two neighbours are at most one apart.
  lemma {:induction false} NoRoomMeans(siblings: seq<Sibling>, at: nat)
    requires Sorted(siblings) && at <= |siblings|
    ensures Slot(siblings, at).None? <==>
            || !AllPositioned(siblings)
            || (at == 0 && siblings != [] && siblings[0].position.value == 0)
            || (0 < at < |siblings| && siblings[at].position.value - siblings[at - 1].position.value <= 1)
  {
    if AllPositioned(siblings) && 0 < at < |siblings| {
      OrderedPositions(siblings, at - 1, at);
    }
  }
}
