/**
  The readings an author stamps (crates/kols-core/src/hlc.rs,
  crates/kols-node/src/chat.rs) and what a log makes of them over a whole run.
 */
module Stamps {
  import opened Prelude
  import opened Records
  import opened Segments
  import opened Logs
  import opened LogRuns

  /// `Hlc::next`: past the highest reading observed, its counter saturating.
  function Next(now: i64, observed: Option<Hlc>): Hlc {
    match observed
    case Some(prev) =>
      if now <= prev.wall then Hlc(prev.wall, if prev.counter == U32_MAX then U32_MAX else prev.counter + 1)
      else Hlc(now, 0)
    case None => Hlc(now, 0)
  }

  /// `next_hlc`: past the device's own last reading. `None` is the addition that
  /// does not fit.
  function NextHlc(last: Option<Hlc>, wall: i64): Option<Hlc> {
    match last
    case Some(prev) =>
      if wall <= prev.wall then
        if prev.counter == U32_MAX then None else Some(Hlc(prev.wall, prev.counter + 1))
      else Some(Hlc(wall, 0))
    case None => Some(Hlc(wall, 0))
  }

  /// Saturation is the one thing that stops a reading advancing, and it is the
  /// same thing `next_hlc` has no answer to. Everywhere else the two agree, and
  /// what they give is past what was observed and not before the clock.
  lemma {:induction false} ReadingsAdvance(now: i64, prev: Hlc)
    ensures prev.Less(Next(now, Some(prev))) <==> !(now <= prev.wall && prev.counter == U32_MAX)
    ensures NextHlc(Some(prev), now) == if prev.Less(Next(now, Some(prev))) then Some(Next(now, Some(prev))) else None
    ensures Next(now, Some(prev)).wall >= now
    ensures Next(now, None) == Hlc(now, 0) && NextHlc(None, now) == Some(Hlc(now, 0))
    ensures forall h: Hlc :: prev.Less(h) && h.wall >= now ==> !h.Less(Next(now, Some(prev)))
  {
  }

  // ------------------------------------------------------------------------
  // Runs of stamps
  // ------------------------------------------------------------------------

  /// The stamps of a run of clock readings, each after the one before it.
  function Stamped(walls: seq<i64>): seq<Hlc>
  {
    if walls == [] then []
    else
      var before := Stamped(walls[..|walls| - 1]);
      match NextHlc(if before == [] then None else Some(before[|before| - 1]), walls[|walls| - 1])
      case None => before
      case Some(h) => before + [h]
  }

  /// Each past the one before it.
  predicate Increasing(s: seq<Hlc>) {
    forall i, j :: 0 <= i < j < |s| ==> s[i].Less(s[j])
  }

  /// As many stamps before each as its counter says, at least.
  predicate Counted(s: seq<Hlc>) {
    forall i :: 0 <= i < |s| ==> s[i].counter <= i
  }

  lemma {:induction false} OneMoreStamp(before: seq<Hlc>, wall: i64, h: Hlc)
    requires Increasing(before) && Counted(before)
    requires NextHlc(if before == [] then None else Some(before[|before| - 1]), wall) == Some(h)
    ensures Increasing(before + [h]) && Counted(before + [h])
  {
    var s, n := before + [h], |before|;
    forall i, j | 0 <= i < j < |s| ensures s[i].Less(s[j]) {
      assert i < n - 1 ==> before[i].Less(before[n - 1]);
    }
  }

  /// Whatever the clock does, stepping back included: every stamp is past the
  /// one before it, and fewer than 2^32 of them never run out of counter.
  lemma {:induction false} StampsIncrease(walls: seq<i64>)
    ensures Increasing(Stamped(walls)) && Counted(Stamped(walls))
    ensures |walls| <= U32_MAX + 1 ==> |Stamped(walls)| == |walls|
  {
    hide Increasing;
    if walls == [] {
      NoStamps();
    } else {
      var n := |walls| - 1;
      StampsIncrease(walls[..n]);
      var before := Stamped(walls[..n]);
      var next := NextHlc(if before == [] then None else Some(before[|before| - 1]), walls[n]);
      if next.Some? {
        OneMoreStamp(before, walls[n], next.value);
      }
    }
  }

  lemma {:induction false} NoStamps()
    ensures Increasing(Stamped([])) && Counted(Stamped([]))
  {
  }

  /// The highest of some clock readings.
  predicate IsHighest(walls: seq<i64>, wall: i64) {
    wall in walls && forall k :: 0 <= k < |walls| ==> walls[k] <= wall
  }

  /// And each claims the highest time the clock had shown by then, nothing later.
  lemma {:induction false} StampsFollowTheClock(walls: seq<i64>, i: nat)
    requires i < |walls| <= U32_MAX + 1
    ensures i < |Stamped(walls)| && IsHighest(walls[..i + 1], Stamped(walls)[i].wall)
  {
    var n := |walls| - 1;
    StampsIncrease(walls);
    StampsIncrease(walls[..n]);
    if i < n {
      StampsFollowTheClock(walls[..n], i);
      assert walls[..n][..i + 1] == walls[..i + 1];
    } else {
      assert walls[..n + 1] == walls && walls == walls[..n] + [walls[n]];
      if n > 0 {
        StampsFollowTheClock(walls[..n], n - 1);
        assert walls[..n][..n] == walls[..n];
      }
    }
  }

  // ------------------------------------------------------------------------
  // A device writing
  // ------------------------------------------------------------------------

  /** A device's log, and the newest reading it ever stamped in the channel. */
  datatype Writer = Writer(log: Log, last: Option<Hlc>)

  /** A record written at a clock reading, or anything else done to the log. */
  datatype Event = Write(wall: i64, draft: Record) | Manage(op: Op)

  function Act(pointerOf: Derivation, author: Id, w: Writer, e: Event): Writer {
    match e
    case Manage(op) => w.(log := Step(pointerOf, author, w.log, op))
    case Write(wall, draft) =>
      match NextHlc(w.last, wall)
      case None => w
      case Some(h) => Writer(Pushed(w.log, author, draft.(hlc := h)), Some(h))
  }

  function Acts(pointerOf: Derivation, author: Id, w: Writer, events: seq<Event>): Writer {
    if events == [] then w
    else Act(pointerOf, author, Acts(pointerOf, author, w, events[..|events| - 1]), events[|events| - 1])
  }

  /// None of a device's records is past its last stamp.
  predicate KeepsUp(records: seq<Record>, device: Id, last: Option<Hlc>) {
    forall r :: r in records && r.device == device ==> last.Some? && !last.value.Less(r.hlc)
  }

  /// Only this device writes here, into its own log; what it rebases onto holds
  /// nothing of its own that it has not stamped.
  predicate Fits(w: Writer, author: Id, device: Id, e: Event) {
    match e
    case Write(_, draft) => draft.author == author && draft.channel == w.log.channel && draft.device == device
    case Manage(Rebase(_, theirs, _)) => KeepsUp(theirs.records, device, w.last)
    case Manage(op) => !op.Push? && !op.Append?
  }

  predicate Honest(pointerOf: Derivation, author: Id, device: Id, w: Writer, events: seq<Event>) {
    forall k :: 0 <= k < |events| ==> Fits(Acts(pointerOf, author, w, events[..k]), author, device, events[k])
  }

  lemma {:induction false} MergeKeepsUp(a: seq<Record>, b: seq<Record>, device: Id, last: Option<Hlc>)
    requires KeepsUp(a, device, last) && KeepsUp(b, device, last)
    ensures KeepsUp(Merged(a, b), device, last)
  {
    InsertedCameFrom([], a + b);
  }

  lemma {:induction false} LastOfIsThere(records: seq<Record>, device: Id)
    requires LastOf(records, device).Some?
    ensures exists r :: r in records && r.device == device && r.hlc == LastOf(records, device).value
  {
    if records[|records| - 1].device == device {
      assert records[|records| - 1] in records;
    } else {
      LastOfIsThere(records[..|records| - 1], device);
    }
  }

  /// A stamp past everything a device has written is one its log accepts.
  lemma {:induction false} StampIsAccepted(w: Writer, author: Id, device: Id, wall: i64, draft: Record)
    requires KeepsUp(w.log.segment.records, device, w.last)
    requires Fits(w, author, device, Write(wall, draft)) && NextHlc(w.last, wall).Some?
    ensures Objection(w.log, author, draft.(hlc := NextHlc(w.last, wall).value)).None?
    ensures KeepsUp(w.log.segment.records + [draft.(hlc := NextHlc(w.last, wall).value)], device, NextHlc(w.last, wall))
  {
    if LastOf(w.log.segment.records, device).Some? {
      LastOfIsThere(w.log.segment.records, device);
    }
  }

  lemma {:induction false} WritersKeepUp(pointerOf: Derivation, author: Id, device: Id, w: Writer, events: seq<Event>)
    requires KeepsUp(w.log.segment.records, device, w.last)
    requires Honest(pointerOf, author, device, w, events)
    ensures var after := Acts(pointerOf, author, w, events);
            KeepsUp(after.log.segment.records, device, after.last)
  {
    hide SegmentBytes, Objection, NextPointer, KeepsUp, Merged, NextHlc;
    if events != [] {
      var n := |events| - 1;
      var front, e := events[..n], events[n];
      assert forall k :: 0 <= k < n ==> front[..k] == events[..k];
      WritersKeepUp(pointerOf, author, device, w, front);
      var before := Acts(pointerOf, author, w, front);
      match e {
        case Write(wall, draft) =>
          if NextHlc(before.last, wall).Some? {
            StampIsAccepted(before, author, device, wall, draft);
          }
        case Manage(Rebase(_, theirs, _)) =>
          MergeKeepsUp(theirs.records, before.log.segment.records, device, before.last);
        case Manage(Seal(_, _)) => NothingToKeepUpWith(device, before.last);
        case Manage(_) =>
      }
    }
  }

  lemma {:induction false} NothingToKeepUpWith(device: Id, last: Option<Hlc>)
    ensures KeepsUp([], device, last)
  {
  }

  /// Whatever a device does in between - publishing, sealing, rebasing, its
  /// clock stepping back - a record it stamps is accepted, until one reading's
  /// counter runs out.
  lemma {:induction false} StampedRecordsAreAccepted(
      pointerOf: Derivation, author: Id, device: Id, w: Writer, events: seq<Event>, wall: i64, draft: Record)
    requires KeepsUp(w.log.segment.records, device, w.last)
    requires Honest(pointerOf, author, device, w, events + [Write(wall, draft)])
    ensures var before := Acts(pointerOf, author, w, events);
            var stamp := NextHlc(before.last, wall);
            stamp.Some? ==> Objection(before.log, author, draft.(hlc := stamp.value)).None?
  {
    hide SegmentBytes, Objection, NextPointer, KeepsUp, Merged, NextHlc, Acts;
    var all := events + [Write(wall, draft)];
    assert all[..|events|] == events;
    assert forall k :: 0 <= k < |events| ==> events[..k] == all[..k] && events[k] == all[k];
    WritersKeepUp(pointerOf, author, device, w, events);
    var before := Acts(pointerOf, author, w, events);
    if NextHlc(before.last, wall).Some? {
      StampIsAccepted(before, author, device, wall, draft);
    }
  }

  /// Stamping past the highest reading observed, rather than past the device's
  /// own last, is what keeps a segment's order after a rebase too.
  lemma {:induction false} ObservedStampsKeepOrder(log: Log, author: Id, draft: Record, now: i64)
    requires InOrder(log.segment.records) && draft.channel == log.channel && draft.author == author
    requires var rs := log.segment.records;
             rs != [] ==> !(now <= rs[|rs| - 1].hlc.wall && rs[|rs| - 1].hlc.counter == U32_MAX)
    ensures var rs := log.segment.records;
            var r := draft.(hlc := Next(now, if rs == [] then None else Some(rs[|rs| - 1].hlc)));
            Objection(log, author, r).None? && InOrder(Extended(log, r).segment.records)
  {
    hide InOrder;
    var rs := log.segment.records;
    var r := draft.(hlc := Next(now, if rs == [] then None else Some(rs[|rs| - 1].hlc)));
    if rs != [] && LastOf(rs, r.device).Some? {
      LastOfIsThere(rs, r.device);
      LastIsHighest(rs);
    }
    PushOrderIsExact(log, author, r);
  }

  lemma {:induction false} LastIsHighest(rs: seq<Record>)
    requires InOrder(rs) && rs != []
    ensures forall r :: r in rs ==> !rs[|rs| - 1].hlc.Less(r.hlc)
  {
    FrontHoldsTheRest(rs);
  }

  /// A record past the highest reading in the segment, or a rebase that brings
  /// no device two records at one reading.
  ghost predicate Observant(log: Log, op: Op) {
    match op
    case Push(r) => PastEverything(log, r)
    case Append(r, _) => PastEverything(log, r)
    case Rebase(_, theirs, _) =>
      var all := theirs.records + log.segment.records;
      FaithfulIds(all) && !Doubled(all)
    case _ => true
  }

  predicate PastEverything(log: Log, r: Record) {
    var rs := log.segment.records;
    rs != [] ==> rs[|rs| - 1].hlc.Less(r.hlc)
  }

  lemma {:induction false} PastEverythingKeepsOrder(log: Log, author: Id, r: Record)
    requires InOrder(log.segment.records) && PastEverything(log, r)
    ensures InOrder(Pushed(log, author, r).segment.records)
  {
    hide InOrder;
    if Objection(log, author, r).None? {
      PushOrderIsExact(log, author, r);
    }
  }

  /// Over a whole run: so long as every record is stamped past what the segment
  /// holds, and no rebase doubles a reading, the order is never left.
  lemma {:induction false} ObservantRunsStayInOrder(pointerOf: Derivation, author: Id, log: Log, ops: seq<Op>)
    requires InOrder(log.segment.records)
    requires forall k :: 0 <= k < |ops| ==> Observant(Run(pointerOf, author, log, ops[..k]), ops[k])
    ensures InOrder(Run(pointerOf, author, log, ops).segment.records)
  {
    hide SegmentBytes, InOrder, Objection, NextPointer, Merged, PastEverything, Doubled, FaithfulIds;
    if ops != [] {
      var n := |ops| - 1;
      var front, op := ops[..n], ops[n];
      assert forall k :: 0 <= k < n ==> front[..k] == ops[..k] && front[k] == ops[k];
      ObservantRunsStayInOrder(pointerOf, author, log, front);
      var before := Run(pointerOf, author, log, front);
      assert Observant(before, op);
      match op {
        case Push(r) => PastEverythingKeepsOrder(before, author, r);
        case Append(r, _) => PastEverythingKeepsOrder(before, author, r);
        case Rebase(_, theirs, _) => MergedOrderIsExact(theirs.records, before.segment.records);
        case Seal(_, _) => EmptyIsInOrder();
        case Publish(_) =>
      }
    }
  }
}
