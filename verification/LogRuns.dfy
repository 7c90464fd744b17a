/**
  What holds over whole runs of an author's log: how publishes may be batched,
  what a rebase merges, and when the records stay in the order a segment promises.
 */
module LogRuns {
  import opened Prelude
  import opened Records
  import opened Segments
  import opened Logs
  import RecordCodec

  datatype Op =
    | Push(record: Record)
    | Append(record: Record, gate: Gate)
    | Publish(gate: Gate)
    | Seal(manifest: Id, next: Id)
    | Rebase(canonical: Pointer, theirs: Segment, gate: Gate)

  function PublishedIf(log: Log, gate: Gate): Log {
    if Allows(gate, log) then Published(log) else log
  }

  function Step(pointerOf: Derivation, author: Id, log: Log, op: Op): Log {
    match op
    case Push(r) => Pushed(log, author, r)
    case Append(r, gate) => if Objection(log, author, r).None? then PublishedIf(Extended(log, r), gate) else log
    case Publish(gate) => PublishedIf(log, gate)
    case Seal(manifest, next) =>
      if log.segment.sequence < U64_MAX then Sealed(pointerOf, log, manifest, next) else log
    case Rebase(canonical, theirs, gate) =>
      if Rebasable(log, canonical, theirs) then PublishedIf(Adopted(log, canonical, theirs), gate) else log
  }

  function Run(pointerOf: Derivation, author: Id, log: Log, ops: seq<Op>): Log {
    if ops == [] then log
    else Step(pointerOf, author, Run(pointerOf, author, log, ops[..|ops| - 1]), ops[|ops| - 1])
  }

  /// The log object follows the run, and through all of it the bytes given to
  /// its encoder are its segment's whole encoding.
  method Perform(log: AuthorLog, author: Id, ops: seq<Op>)
    requires log.Valid()
    modifies log
    ensures log.Valid() && log.State() == Run(log.pointerOf, author, old(log.State()), ops)
  {
    hide SegmentBytes, HeaderBytes, Framed, NextPointer, Objection, Merged;
    ghost var start := log.State();
    for k := 0 to |ops|
      invariant log.Valid() && log.State() == Run(log.pointerOf, author, start, ops[..k])
    {
      assert ops[..k + 1][..k] == ops[..k];
      match ops[k] {
        case Push(r) => var _ := log.Push(author, r);
        case Append(r, gate) => var _ := log.Append(author, r, gate);
        case Publish(gate) => var _ := log.PublishCurrent(gate);
        case Seal(manifest, next) =>
          if log.segment.sequence < U64_MAX {
            log.Seal(manifest, next);
          }
        case Rebase(canonical, theirs, gate) => var _ := log.Rebase(canonical, theirs, gate);
      }
    }
    assert ops[..|ops|] == ops;
  }

  // ------------------------------------------------------------------------
  // What every run keeps
  // ------------------------------------------------------------------------

  /// The log speaks of one channel under one pointer, and once nothing is left
  /// to publish that pointer names the segment it holds.
  predicate Sound(log: Log) {
    && log.segment.channel == log.channel
    && (log.pointer.Some? ==> log.pointer.value.id == log.pointerId)
    && (log.pointer.Some? && log.unpublished == 0 ==> log.pointer.value.content == SegmentBytes(log.segment))
  }

  /// A rebase that governance lets publish.
  predicate Lands(op: Op) {
    op.Rebase? ==> op.gate.update
  }

  lemma {:induction false} RunsStaySound(pointerOf: Derivation, author: Id, log: Log, ops: seq<Op>)
    requires Sound(log) && forall k :: 0 <= k < |ops| ==> Lands(ops[k])
    ensures Sound(Run(pointerOf, author, log, ops))
  {
    hide SegmentBytes, Objection, Merged;
    if ops != [] {
      RunsStaySound(pointerOf, author, log, ops[..|ops| - 1]);
      assert Lands(ops[|ops| - 1]);
    }
  }

  predicate AllOf(rs: seq<Record>, channel: Id, author: Id) {
    forall r :: r in rs ==> r.channel == channel && r.author == author
  }

  /// Its segment is of its own channel and author, and so is every record in it.
  predicate OwnLog(log: Log, author: Id) {
    && log.segment.channel == log.channel && log.segment.author == author
    && AllOf(log.segment.records, log.channel, author)
  }

  /// No run brings in a record of another channel or author, whatever it is asked
  /// to push or to rebase onto, so long as a segment rebased onto is what it says.
  lemma {:induction false} RunsHoldOnlyTheirOwn(pointerOf: Derivation, author: Id, log: Log, ops: seq<Op>)
    requires OwnLog(log, author)
    requires forall k :: 0 <= k < |ops| && ops[k].Rebase? ==>
               AllOf(ops[k].theirs.records, ops[k].theirs.channel, ops[k].theirs.author)
    ensures OwnLog(Run(pointerOf, author, log, ops), author) && Run(pointerOf, author, log, ops).channel == log.channel
  {
    hide SegmentBytes, LastOf, Merged, AllOf, NextPointer;
    if ops != [] {
      var front, op := ops[..|ops| - 1], ops[|ops| - 1];
      RunsHoldOnlyTheirOwn(pointerOf, author, log, front);
      var before := Run(pointerOf, author, log, front);
      match op {
        case Push(r) => OneMoreOfIts(before.segment.records, r, log.channel, author);
        case Append(r, _) => OneMoreOfIts(before.segment.records, r, log.channel, author);
        case Publish(_) =>
        case Seal(_, _) => NoneOfIts(log.channel, author);
        case Rebase(_, theirs, _) => MergedOfIts(theirs.records, before.segment.records, log.channel, author);
      }
    }
  }

  lemma {:induction false} NoneOfIts(channel: Id, author: Id)
    ensures AllOf([], channel, author)
  {
  }

  lemma {:induction false} OneMoreOfIts(rs: seq<Record>, r: Record, channel: Id, author: Id)
    requires AllOf(rs, channel, author)
    ensures r.channel == channel && r.author == author ==> AllOf(rs + [r], channel, author)
  {
  }

  lemma {:induction false} MergedOfIts(theirs: seq<Record>, ours: seq<Record>, channel: Id, author: Id)
    requires AllOf(ours, channel, author)
    ensures AllOf(theirs, channel, author) ==> AllOf(Merged(theirs, ours), channel, author)
  {
    InsertedCameFrom([], theirs + ours);
  }

  lemma {:induction false} InsertedCameFrom(rs: seq<Record>, more: seq<Record>)
    requires Ascending(rs)
    ensures forall x :: x in InsertAll(rs, more) ==> x in rs || x in more
  {
    hide Ascending;
    if more != [] {
      InsertedCameFrom(rs, more[..|more| - 1]);
    }
  }

  /// A rebase governance stops after the merge leaves the log under a pointer
  /// that does not name it, unless there was nothing to merge.
  lemma {:induction false} AStoppedRebaseIsUnpublished(
      log: Log, canonical: Pointer, theirs: Segment, isKey: Id -> bool, hash: Bytes -> Id)
    requires Sound(log) && Rebasable(log, canonical, theirs) && log.unpublished == 0
    requires canonical.content == SegmentBytes(theirs) && Ascending(theirs.records)
    requires Writable(theirs, isKey, hash) && Writable(log.segment, isKey, hash)
    requires FaithfulIds(theirs.records + log.segment.records)
    ensures Sound(Adopted(log, canonical, theirs)) <==> forall r :: r in log.segment.records ==> r in theirs.records
  {
    hide SegmentBytes, Merged, Ascending, FaithfulIds, Writable;
    var merged := Merged(theirs.records, log.segment.records);
    MergingIsUnion(theirs.records, log.segment.records);
    var mine := Adopted(log, canonical, theirs).segment;
    if forall r :: r in log.segment.records ==> r in theirs.records {
      AscendingIsUnique(merged, theirs.records);
      assert mine == theirs;
    } else if SegmentBytes(mine) == SegmentBytes(theirs) {
      MergedIsWritable(theirs, log.segment, mine, isKey, hash);
      BytesNameSegments(mine, theirs, isKey, hash);
    }
  }

  /// One record published here, another by a concurrent device, and governance
  /// refusing updates by the time this device merges them.
  lemma {:induction false} ARebaseCanBeStopped(author: Id, dek: Id)
    returns (log: Log, canonical: Pointer, theirs: Segment)
    ensures Sound(log) && Rebasable(log, canonical, theirs)
    ensures !Allows(Gate(true, false), Adopted(log, canonical, theirs))
    ensures canonical.content == SegmentBytes(theirs) && log.unpublished == 0
    ensures !Sound(Adopted(log, canonical, theirs))
  {
    hide SegmentBytes, Framed;
    var a := Record(1, 0, author, 1, Hlc(20, 0), Tombstone(0), BLANK_SIGNATURE);
    var b := Record(2, 0, author, 2, Hlc(10, 0), Tombstone(0), BLANK_SIGNATURE);
    var ours := Segment(0, author, 0, None, [a]);
    theirs := Segment(0, author, 0, None, [b]);
    log := Log(0, 0, dek, ours, Some(Pointer(0, dek, 0, SegmentBytes(ours))), 0);
    canonical := Pointer(0, dek, 0, SegmentBytes(theirs));
    var both := [b] + [a];
    assert FaithfulIds(both);
    MergingIsUnion([b], [a]);
    AscendingIsUnique(Merged([b], [a]), [b, a]);
    assert [b] + [a] == [b, a];
    AppendExtends(theirs, a);
    FramesAreNotEmpty(a);
    assert Adopted(log, canonical, theirs).segment == theirs.(records := [b] + [a]);
  }

  lemma {:induction false} MergedIsWritable(
      a: Segment, b: Segment, merged: Segment, isKey: Id -> bool, hash: Bytes -> Id)
    requires Writable(a, isKey, hash) && Writable(b, isKey, hash) && merged.author == a.author
    requires forall r :: r in merged.records ==> r in a.records || r in b.records
    ensures Writable(merged, isKey, hash)
  {
    hide RecordCodec.WellFormed, RecordCodec.Canonical;
    forall k | 0 <= k < |merged.records|
      ensures RecordCodec.WellFormed(merged.records[k], isKey, hash)
              && |RecordCodec.Canonical(merged.records[k])| <= U64_MAX
    {
      assert merged.records[k] in a.records || merged.records[k] in b.records;
    }
  }

  // ------------------------------------------------------------------------
  // Batching
  // ------------------------------------------------------------------------

  /// Pushes, appends and publishes, none of which governance stops.
  predicate Plain(ops: seq<Op>) {
    forall k :: 0 <= k < |ops| ==>
      ops[k].Push? || (ops[k].Append? && ops[k].gate == OPEN_GATE) || (ops[k].Publish? && ops[k].gate == OPEN_GATE)
  }

  /// The records a run offers, in order.
  function Offered(ops: seq<Op>): seq<Record> {
    if ops == [] then []
    else
      var before, last := Offered(ops[..|ops| - 1]), ops[|ops| - 1];
      if last.Push? || last.Append? then before + [last.record] else before
  }

  function PushAll(log: Log, author: Id, rs: seq<Record>): Log {
    if rs == [] then log else Pushed(PushAll(log, author, rs[..|rs| - 1]), author, rs[|rs| - 1])
  }

  /// How many publishes of a run had nothing pushed to them.
  function Idle(pointerOf: Derivation, author: Id, log: Log, ops: seq<Op>): nat {
    if ops == [] then 0
    else
      var front, last := ops[..|ops| - 1], ops[|ops| - 1];
      Idle(pointerOf, author, log, front)
      + if last.Publish? && Run(pointerOf, author, log, front).unpublished == 0 then 1 else 0
  }

  /// The log once whatever is pending is published.
  function Settled(log: Log): Log {
    if log.unpublished > 0 then Published(log) else log
  }

  lemma {:induction false} SettlingEarly(log: Log, author: Id, r: Record)
    ensures Settled(Pushed(log, author, r)) == Settled(Pushed(Settled(log), author, r))
  {
    hide SegmentBytes, LastOf;
  }

  lemma {:induction false} BatchesSettleAlike(pointerOf: Derivation, author: Id, log: Log, ops: seq<Op>)
    requires Plain(ops) && Idle(pointerOf, author, log, ops) == 0
    ensures Settled(Run(pointerOf, author, log, ops)) == Settled(PushAll(log, author, Offered(ops)))
  {
    hide SegmentBytes, Objection;
    if ops != [] {
      var front, last := ops[..|ops| - 1], ops[|ops| - 1];
      BatchesSettleAlike(pointerOf, author, log, front);
      var run, all := Run(pointerOf, author, log, front), PushAll(log, author, Offered(front));
      if !last.Publish? {
        var r := last.record;
        assert (Offered(front) + [r])[..|Offered(front)|] == Offered(front);
        SettlingEarly(run, author, r);
        SettlingEarly(all, author, r);
      }
    }
  }

  /// However records are grouped into publishes, the last of them leaves the log
  /// that pushing them all and publishing once leaves: same segment, same bytes,
  /// same pointer version.
  lemma {:induction false} BatchingDoesNotShow(pointerOf: Derivation, author: Id, log: Log, ops: seq<Op>)
    requires Plain(ops) && Idle(pointerOf, author, log, ops) == 0
    requires Run(pointerOf, author, log, ops).unpublished == 0
    requires PushAll(log, author, Offered(ops)).unpublished > 0
    ensures Run(pointerOf, author, log, ops) == Published(PushAll(log, author, Offered(ops)))
  {
    hide SegmentBytes, Run, PushAll;
    BatchesSettleAlike(pointerOf, author, log, ops);
  }

  /// How many versions a log's pointer has passed, or will once it is published.
  function Reach(log: Log): nat {
    log.unpublished + match log.pointer case None => 0 case Some(p) => p.version + 1
  }

  /// Versions count records, and publishes that had none: nothing else moves
  /// them, and nothing is counted twice.
  lemma {:induction false} VersionsCountRecords(pointerOf: Derivation, author: Id, log: Log, ops: seq<Op>)
    requires Plain(ops)
    ensures var after := Run(pointerOf, author, log, ops);
            Reach(after) - |after.segment.records|
            == Reach(log) - |log.segment.records| + Idle(pointerOf, author, log, ops)
  {
    hide SegmentBytes, Objection;
    if ops != [] {
      VersionsCountRecords(pointerOf, author, log, ops[..|ops| - 1]);
    }
  }

  // ------------------------------------------------------------------------
  // Rebasing
  // ------------------------------------------------------------------------

  /// A merge holds every record of either side and no other.
  lemma {:induction false} MergingIsUnion(a: seq<Record>, b: seq<Record>)
    requires FaithfulIds(a + b)
    ensures forall r :: r in Merged(a, b) <==> r in a || r in b
    ensures Ascending(Merged(a, b)) && FaithfulIds(Merged(a, b))
  {
    assert [] + (a + b) == a + b;
    InsertAllMembers([], a + b);
    FaithfulOver(a + b, Merged(a, b));
  }

  /// Which side rebases makes no difference, nor does a third, nor doing it twice.
  lemma {:induction false} MergingConverges(a: seq<Record>, b: seq<Record>, c: seq<Record>)
    requires FaithfulIds(a + b + c)
    ensures Merged(a, b) == Merged(b, a)
    ensures Merged(Merged(a, b), c) == Merged(a, Merged(b, c))
    ensures Ascending(a) ==> Merged(a, a) == a
    ensures Merged(Merged(a, b), b) == Merged(a, b)
  {
    hide Ascending, FaithfulIds, Merged;
    var all := a + b + c;
    FaithfulOver(all, a + b);
    FaithfulOver(all, b + a);
    FaithfulOver(all, b + c);
    FaithfulOver(all, a + a);
    MergingIsUnion(a, b);
    MergingIsUnion(b, a);
    MergingIsUnion(b, c);
    MergingIsUnion(a, a);
    FaithfulOver(all, Merged(a, b) + c);
    FaithfulOver(all, a + Merged(b, c));
    FaithfulOver(all, Merged(a, b) + b);
    MergingIsUnion(Merged(a, b), c);
    MergingIsUnion(a, Merged(b, c));
    MergingIsUnion(Merged(a, b), b);
    AscendingIsUnique(Merged(a, b), Merged(b, a));
    AscendingIsUnique(Merged(Merged(a, b), c), Merged(a, Merged(b, c)));
    AscendingIsUnique(Merged(Merged(a, b), b), Merged(a, b));
    if Ascending(a) {
      AscendingIsUnique(Merged(a, a), a);
    }
  }

  /// Two devices that published one log at once reach one state when either
  /// rebases onto the other: the same records, in one order, so the same bytes;
  /// and the pointer it publishes supersedes the one it adopted.
  lemma {:induction false} RebasesAgree(left: Log, right: Log, pl: Pointer, pr: Pointer)
    requires left.segment.(records := []) == right.segment.(records := [])
    requires left.channel == right.channel == left.segment.channel && left.pointerId == right.pointerId
    requires pl.id == left.pointerId && pr.id == right.pointerId
    requires FaithfulIds(left.segment.records + right.segment.records)
    ensures Rebasable(left, pr, right.segment) && Rebasable(right, pl, left.segment)
    ensures var l, r := Adopted(left, pr, right.segment), Adopted(right, pl, left.segment);
            && l.segment == r.segment
            && NextPointer(l).content == NextPointer(r).content == SegmentBytes(l.segment)
            && (forall x :: x in l.segment.records <==> x in left.segment.records || x in right.segment.records)
            && Ascending(l.segment.records)
            && NextPointer(l).version > pr.version && NextPointer(r).version > pl.version
            && NextPointer(l).version == pr.version + (if left.unpublished > 1 then left.unpublished else 1)
            && NextPointer(r).version == pl.version + (if right.unpublished > 1 then right.unpublished else 1)
  {
    hide SegmentBytes, Ascending, Merged;
    var a, b := left.segment.records, right.segment.records;
    FaithfulOver(a + b, a + b + []);
    MergingConverges(a, b, []);
    MergingIsUnion(a, b);
    assert left.segment == right.segment.(records := a);
  }

  // ------------------------------------------------------------------------
  // Order
  // ------------------------------------------------------------------------

  /// Two distinct records of one device at one reading.
  predicate Doubled(rs: seq<Record>) {
    exists r, s :: r in rs && s in rs && r != s && r.device == s.device && r.hlc == s.hlc
  }

  /// A merge is in a segment's order exactly when no device wrote two
  /// records at one reading.
  lemma {:induction false} MergedOrderIsExact(a: seq<Record>, b: seq<Record>)
    requires FaithfulIds(a + b)
    ensures InOrder(Merged(a, b)) <==> !Doubled(a + b)
  {
    var merged := Merged(a, b);
    MergingIsUnion(a, b);
    if Doubled(a + b) {
      var r, s :| r in a + b && s in a + b && r != s && r.device == s.device && r.hlc == s.hlc;
      assert r in merged && s in merged;
      var i, j :| 0 <= i < |merged| && 0 <= j < |merged| && merged[i] == r && merged[j] == s;
      assert !r.hlc.Less(s.hlc);
    } else {
      forall i, j | 0 <= i < j < |merged| && merged[i].device == merged[j].device
        ensures merged[i].hlc.Less(merged[j].hlc)
      {
        assert merged[i] in a + b && merged[j] in a + b;
      }
    }
  }

  /// An accepted push keeps a segment's order exactly when the record falls
  /// after the last one of the segment, whichever device wrote that.
  lemma {:induction false} PushOrderIsExact(log: Log, author: Id, r: Record)
    requires InOrder(log.segment.records) && Objection(log, author, r).None?
    ensures var rs := log.segment.records;
            InOrder(Extended(log, r).segment.records) <==> rs == [] || rs[|rs| - 1].Position().Less(r.Position())
  {
    hide Ascending, SegmentBytes;
    var rs := log.segment.records;
    var more := rs + [r];
    assert more[..|rs|] == rs;
    StrictMeans(rs);
    StrictMeans(more);
    NeighboursSuffice(rs);
    NeighboursSuffice(more);
    forall k | 0 <= k < |rs| ensures more[k] == rs[k] {}
  }

  /// Pushes compare a record with its own device's last reading. After a rebase
  /// that is not enough: an accepted push can leave records in an order that
  /// `ordering_is_valid` rejects, though nothing that reads a segment asks it.
  lemma {:induction false} PushAfterRebaseCanBreakOrder(author: Id, dek: Id) returns (log: Log, r: Record)
    ensures InOrder(log.segment.records) && Objection(log, author, r).None?
    ensures !InOrder(Extended(log, r).segment.records)
  {
    var ours := Record(1, 0, author, 1, Hlc(10, 0), Tombstone(0), BLANK_SIGNATURE);
    var theirs := Record(2, 0, author, 2, Hlc(20, 0), Tombstone(0), BLANK_SIGNATURE);
    r := Record(3, 0, author, 1, Hlc(15, 0), Tombstone(0), BLANK_SIGNATURE);
    var pushed := Log(0, 0, dek, Segment(0, author, 0, None, [ours]), None, 1);
    log := Adopted(pushed, Pointer(0, dek, 0, []), Segment(0, author, 0, None, [theirs]));
    var both := [theirs] + [ours];
    assert FaithfulIds(both);
    MergingIsUnion([theirs], [ours]);
    AscendingIsUnique(Merged([theirs], [ours]), [ours, theirs]);
    assert log.segment.records == [ours, theirs];
    assert [ours, theirs][..1] == [ours];
    assert LastOf([ours], 1) == Some(ours.hlc);
    PushOrderIsExact(log, author, r);
  }

  predicate FromDevice(rs: seq<Record>, device: Id) {
    forall r :: r in rs ==> r.device == device
  }

  /// Nothing written by another device, pushed or merged.
  predicate ByDevice(op: Op, device: Id) {
    match op
    case Push(r) => r.device == device
    case Append(r, _) => r.device == device
    case Rebase(_, _, _) => false
    case _ => true
  }

  /// One device alone never leaves a segment's order, however its log is
  /// pushed, published and sealed.
  lemma {:induction false} OneDeviceStaysInOrder(pointerOf: Derivation, author: Id, log: Log, ops: seq<Op>, device: Id)
    requires InOrder(log.segment.records) && FromDevice(log.segment.records, device)
    requires forall k :: 0 <= k < |ops| ==> ByDevice(ops[k], device)
    ensures var after := Run(pointerOf, author, log, ops);
            InOrder(after.segment.records) && FromDevice(after.segment.records, device)
  {
    hide SegmentBytes, InOrder, LastOf, NextPointer;
    if ops != [] {
      var front, op := ops[..|ops| - 1], ops[|ops| - 1];
      OneDeviceStaysInOrder(pointerOf, author, log, front, device);
      var before := Run(pointerOf, author, log, front);
      assert ByDevice(op, device);
      if (op.Push? || op.Append?) && Objection(before, author, op.record).None? {
        OneDeviceExtends(before, author, op.record, device);
      }
      if op.Seal? {
        EmptyIsInOrder();
      }
    }
  }

  lemma {:induction false} EmptyIsInOrder()
    ensures InOrder([])
  {
  }

  lemma {:induction false} OneDeviceExtends(log: Log, author: Id, r: Record, device: Id)
    requires InOrder(log.segment.records) && FromDevice(log.segment.records, device)
    requires Objection(log, author, r).None? && r.device == device
    ensures InOrder(Extended(log, r).segment.records)
  {
    hide InOrder;
    var rs := log.segment.records;
    if rs != [] {
      assert rs[|rs| - 1] in rs;
    }
    PushOrderIsExact(log, author, r);
  }

  // ------------------------------------------------------------------------
  // The head index
  // ------------------------------------------------------------------------

  /// An empty segment naming the head, its pointer walked to the head's sequence
  /// so that every advance supersedes the index before it.
  method PublishHeadIndex(author: Id, channel: Id, head: u64, pointerId: Id, dek: Id, gate: Gate)
    returns (out: Result<Pointer, LogError>)
    ensures gate.publish && (head > 0 ==> gate.update) ==>
              out == Ok(Pointer(pointerId, dek, head, SegmentBytes(Segment(channel, author, head, None, []))))
    ensures !(gate.publish && (head > 0 ==> gate.update)) ==> out == Err(Storage)
  {
    hide SegmentBytes;
    var content := CanonicalBytes(Segment(channel, author, head, None, []));
    if !gate.publish {
      return Err(Storage);
    }
    var pointer := Pointer(pointerId, dek, 0, content);
    for step := 0 to head
      invariant pointer == Pointer(pointerId, dek, step, content)
      invariant step > 0 ==> gate.update
    {
      if !gate.update {
        return Err(Storage);
      }
      pointer := pointer.(version := pointer.version + 1, content := content);
    }
    out := Ok(pointer);
  }
}
