/**
  A run of one author's records, as one object (crates/kols-core/src/segment.rs):
  its bytes, its reading, and the order its records must be in.
 */
module Segments {
  import opened Prelude
  import opened Records
  import opened Wire
  import RecordCodec

  const MAX_RECORDS_PER_SEGMENT := 4096

  function SegmentDomain(): (domain: Bytes)
    ensures |domain| == 24
  {
    Ascii("intranet.chat-segment.v1")
  }

  datatype Segment = Segment(channel: Id, author: Id, sequence: u64, previous: Option<Id>, records: seq<Record>)

  datatype SegmentError =
    Malformed(why: DecodeError) | BadAuthor | BadRecord(error: RecordCodec.CodecError) | TooManyRecords

  /// Everything ahead of the record list, which an append cannot change.
  function PutHeader(s: Segment, tail: Bytes): Bytes {
    PutBytes(
      SegmentDomain(), PutId(s.channel, PutId(s.author, PutUint(s.sequence, 8, PutOptionalId(s.previous, tail)))))
  }

  function HeaderBytes(s: Segment): Bytes {
    PutHeader(s, [])
  }

  /// One record as a segment carries it.
  function Framed(r: Record): Bytes {
    PutBytes(RecordCodec.Canonical(r), [])
  }

  /// The record list: frames to the end of input, with no count ahead of them.
  function Frames(records: seq<Record>): Bytes {
    if records == [] then [] else PutBytes(RecordCodec.Canonical(records[0]), Frames(records[1..]))
  }

  /// The segment's canonical bytes.
  function SegmentBytes(s: Segment): Bytes {
    PutHeader(s, Frames(s.records))
  }

  // ------------------------------------------------------------------------
  // An append only extends
  // ------------------------------------------------------------------------

  lemma {:induction false} PutBytesAppends(s: Bytes, tail: Bytes, more: Bytes)
    ensures PutBytes(s, tail + more) == PutBytes(s, tail) + more
  {
    assert s + (tail + more) == (s + tail) + more;
  }

  lemma {:induction false} PutHeaderAppends(s: Segment, tail: Bytes, more: Bytes)
    ensures PutHeader(s, tail + more) == PutHeader(s, tail) + more
  {
    hide SegmentDomain, PutBytes, BigEndian;
    match s.previous {
      case None =>
        assert PutOptionalId(s.previous, tail + more) == PutOptionalId(s.previous, tail) + more;
      case Some(id) =>
        assert PutId(id, tail + more) == PutId(id, tail) + more;
        assert PutOptionalId(s.previous, tail + more) == PutOptionalId(s.previous, tail) + more;
    }
    var t := PutOptionalId(s.previous, tail);
    assert PutUint(s.sequence, 8, t + more) == PutUint(s.sequence, 8, t) + more;
    var u := PutUint(s.sequence, 8, t);
    assert PutId(s.author, u + more) == PutId(s.author, u) + more;
    var v := PutId(s.author, u);
    assert PutId(s.channel, v + more) == PutId(s.channel, v) + more;
    PutBytesAppends(SegmentDomain(), PutId(s.channel, v), more);
  }

  lemma {:induction false} FramesAppend(records: seq<Record>, r: Record)
    ensures Frames(records + [r]) == Frames(records) + Framed(r)
  {
    hide PutBytes, RecordCodec.Canonical;
    if records == [] {
      assert ([] + [r])[1..] == [];
    } else {
      FramesAppend(records[1..], r);
      assert (records + [r])[1..] == records[1..] + [r];
      PutBytesAppends(RecordCodec.Canonical(records[0]), Frames(records[1..]), Framed(r));
    }
  }

  /// Appending a record appends its frame and disturbs nothing before it.
  lemma {:induction false} AppendExtends(s: Segment, r: Record)
    ensures SegmentBytes(s.(records := s.records + [r])) == SegmentBytes(s) + Framed(r)
  {
    hide PutHeader;
    FramesAppend(s.records, r);
    PutHeaderAppends(s, Frames(s.records), Framed(r));
    SameHeader(s.(records := s.records + [r]), s, Frames(s.records) + Framed(r));
  }

  lemma {:induction false} SameHeader(s: Segment, t: Segment, tail: Bytes)
    requires s.channel == t.channel && s.author == t.author && s.sequence == t.sequence && s.previous == t.previous
    ensures PutHeader(s, tail) == PutHeader(t, tail)
  {
  }

  /// The loop of the source: the header, then each record's frame.
  method CanonicalBytes(s: Segment) returns (bytes: Bytes)
    ensures bytes == SegmentBytes(s)
  {
    hide PutHeader, Framed, Frames, SegmentBytes;
    bytes := HeaderBytes(s);
    ghost var soFar := s.(records := []);
    NoRecords(s);
    for k := 0 to |s.records|
      invariant soFar == s.(records := s.records[..k])
      invariant bytes == SegmentBytes(soFar)
    {
      AppendExtends(soFar, s.records[k]);
      bytes := bytes + Framed(s.records[k]);
      soFar := soFar.(records := soFar.records + [s.records[k]]);
    }
    assert s.records[..|s.records|] == s.records;
  }

  lemma {:induction false} NoRecords(s: Segment)
    ensures SegmentBytes(s.(records := [])) == HeaderBytes(s)
  {
    hide PutHeader;
    SameHeader(s.(records := []), s, []);
  }

  // ------------------------------------------------------------------------
  // Reading
  // ------------------------------------------------------------------------

  function TakeHeader(b: Bytes): Parsed<Segment> {
    match TakeDomain(b, SegmentDomain())
    case Fail(why) => Fail(why)
    case Got(_, b1) =>
    match TakeId(b1)
    case Fail(why) => Fail(why)
    case Got(channel, b2) =>
    match TakeId(b2)
    case Fail(why) => Fail(why)
    case Got(author, b3) =>
    match TakeUint(b3, 8)
    case Fail(why) => Fail(why)
    case Got(sequence, b4) =>
    match TakeOptionalId(b4)
    case Fail(why) => Fail(why)
    case Got(previous, b5) =>
      Widths(); UintPut(b3, 8);
      Got(Segment(channel, author, sequence, previous, []), b5)
  }

  /// A record, and the bytes after its frame.
  datatype Frame = Frame(record: Record, rest: Bytes)

  /// One frame, and the record in it.
  function TakeFrame(b: Bytes, isKey: Id -> bool, hash: Bytes -> Id): (out: Result<Frame, SegmentError>)
    ensures out.Ok? ==> |out.value.rest| < |b|
  {
    match TakeBytes(b)
    case Fail(why) => Err(Malformed(why))
    case Got(frame, rest) => InFrame(RecordCodec.Decode(frame, isKey, hash), rest)
  }

  function InFrame(record: Result<Record, RecordCodec.CodecError>, rest: Bytes): (out: Result<Frame, SegmentError>)
    ensures out.Ok? ==> out.value.rest == rest
  {
    match record
    case Err(error) => Err(BadRecord(error))
    case Ok(r) => Ok(Frame(r, rest))
  }

  /// The records of a frame list, with room for so many more.
  function TakeFrames(b: Bytes, room: nat, isKey: Id -> bool, hash: Bytes -> Id): Result<seq<Record>, SegmentError>
    decreases room
  {
    if b == [] then Ok([])
    else if room == 0 then Err(TooManyRecords)
    else
      match TakeFrame(b, isKey, hash)
      case Err(error) => Err(error)
      case Ok(taken) =>
        match TakeFrames(taken.rest, room - 1, isKey, hash)
        case Err(error) => Err(error)
        case Ok(more) => Ok([taken.record] + more)
  }

  function TakeSegment(b: Bytes, isKey: Id -> bool, hash: Bytes -> Id): Result<Segment, SegmentError> {
    match TakeHeader(b)
    case Fail(why) => Err(Malformed(why))
    case Got(s, rest) =>
      if !isKey(s.author) then Err(BadAuthor)
      else
        match TakeFrames(rest, MAX_RECORDS_PER_SEGMENT, isKey, hash)
        case Err(error) => Err(error)
        case Ok(records) => Ok(s.(records := records))
  }

  /// What the types guarantee of a segment in memory.
  predicate Writable(s: Segment, isKey: Id -> bool, hash: Bytes -> Id) {
    isKey(s.author) && AllWellFormed(s.records, isKey, hash)
  }

  predicate AllWellFormed(records: seq<Record>, isKey: Id -> bool, hash: Bytes -> Id) {
    forall k :: 0 <= k < |records| ==>
      RecordCodec.WellFormed(records[k], isKey, hash) && |RecordCodec.Canonical(records[k])| <= U64_MAX
  }

  lemma {:induction false} HeaderTaken(s: Segment, tail: Bytes)
    ensures TakeHeader(PutHeader(s, tail)) == Got(s.(records := []), tail)
  {
    hide SegmentDomain, PutBytes, TakeBytes, PutId, TakeId, PutUint, TakeUint, Pow256, PutOptionalId, TakeOptionalId;
    Widths();
    var b4 := PutOptionalId(s.previous, tail);
    var b3 := PutUint(s.sequence, 8, b4);
    BytesTaken(SegmentDomain(), PutId(s.channel, PutId(s.author, b3)));
    IdTaken(s.channel, PutId(s.author, b3));
    IdTaken(s.author, b3);
    UintTaken(s.sequence, 8, b4);
    OptionalIdTaken(s.previous, tail);
  }

  lemma {:induction false} HeaderPut(b: Bytes)
    requires TakeHeader(b).Got?
    ensures b == PutHeader(TakeHeader(b).value, TakeHeader(b).rest)
  {
    hide SegmentDomain, PutBytes, TakeBytes, PutId, TakeId, PutUint, TakeUint, Pow256, PutOptionalId, TakeOptionalId;
    BytesPut(b);
    var b1 := TakeBytes(b).rest;
    IdPut(b1);
    var b2 := TakeId(b1).rest;
    IdPut(b2);
    var b3 := TakeId(b2).rest;
    UintPut(b3, 8);
    OptionalIdPut(TakeUint(b3, 8).rest);
  }

  /// An author that is no key is refused before any record is looked at, and a
  /// frame that is no record is refused as that.
  lemma {:induction false} SegmentsAreRefused(
      s: Segment, frame: Bytes, tail: Bytes, isKey: Id -> bool, hash: Bytes -> Id)
    requires |frame| <= U64_MAX
    ensures TakeSegment(PutHeader(s, tail), isKey, hash) == Err(BadAuthor) <==> !isKey(s.author)
    ensures isKey(s.author) && RecordCodec.Decode(frame, isKey, hash).Err? ==>
              TakeSegment(PutHeader(s, PutBytes(frame, tail)), isKey, hash)
              == Err(BadRecord(RecordCodec.Decode(frame, isKey, hash).error))
  {
    hide PutHeader, TakeHeader, PutBytes, TakeBytes, RecordCodec.Decode;
    HeaderTaken(s, tail);
    HeaderTaken(s, PutBytes(frame, tail));
    FramesAreNoAuthor(tail, MAX_RECORDS_PER_SEGMENT, isKey, hash);
    NotEmpty(frame, tail);
    BytesTaken(frame, tail);
  }

  lemma {:induction false} FramesAreNoAuthor(b: Bytes, room: nat, isKey: Id -> bool, hash: Bytes -> Id)
    ensures TakeFrames(b, room, isKey, hash) != Err(BadAuthor)
    decreases room
  {
    hide TakeBytes, RecordCodec.Decode;
    if b != [] && room > 0 && TakeFrame(b, isKey, hash).Ok? {
      FramesAreNoAuthor(TakeFrame(b, isKey, hash).value.rest, room - 1, isKey, hash);
    }
  }

  /// With no count to go by, the list still parses back to the one list it is,
  /// up to the decode bound and not past it.
  lemma {:induction false} FramesTaken(records: seq<Record>, room: nat, isKey: Id -> bool, hash: Bytes -> Id)
    requires AllWellFormed(records, isKey, hash)
    ensures TakeFrames(Frames(records), room, isKey, hash)
            == if |records| <= room then Ok(records) else Err(TooManyRecords)
  {
    hide PutBytes, TakeBytes, RecordCodec.Canonical, RecordCodec.Decode, RecordCodec.WellFormed;
    assert Frames([]) == [];
    if records != [] {
      var frame := RecordCodec.Canonical(records[0]);
      NotEmpty(frame, Frames(records[1..]));
      if room > 0 {
        BytesTaken(frame, Frames(records[1..]));
        RecordCodec.RecordsRoundTrip(records[0], isKey, hash);
        FramesTaken(records[1..], room - 1, isKey, hash);
        assert records == [records[0]] + records[1..];
      }
    }
  }

  lemma {:induction false} NotEmpty(s: Bytes, tail: Bytes)
    ensures PutBytes(s, tail) != []
  {
  }

  lemma {:induction false} FramesAreNotEmpty(r: Record)
    ensures |Framed(r)| > 0
  {
    hide RecordCodec.Canonical;
    NotEmpty(RecordCodec.Canonical(r), []);
  }

  lemma {:induction false} FramePut(b: Bytes, isKey: Id -> bool, hash: Bytes -> Id)
    requires TakeFrame(b, isKey, hash).Ok?
    ensures var Frame(r, rest) := TakeFrame(b, isKey, hash).value;
            b == PutBytes(RecordCodec.Canonical(r), rest)
            && RecordCodec.WellFormed(r, isKey, hash) && |RecordCodec.Canonical(r)| <= U64_MAX
  {
    hide PutBytes, RecordCodec.Canonical, RecordCodec.Decode, RecordCodec.WellFormed;
    BytesPut(b);
    RecordCodec.AcceptedBytesReEmit(TakeBytes(b).value, isKey, hash);
  }

  lemma {:induction false} FramesPut(b: Bytes, room: nat, isKey: Id -> bool, hash: Bytes -> Id)
    requires TakeFrames(b, room, isKey, hash).Ok?
    ensures var records := TakeFrames(b, room, isKey, hash).value;
            |records| <= room && Frames(records) == b && AllWellFormed(records, isKey, hash)
    decreases room
  {
    hide PutBytes, TakeFrame, RecordCodec.Canonical, RecordCodec.WellFormed;
    if b != [] {
      FramePut(b, isKey, hash);
      var Frame(r, rest) := TakeFrame(b, isKey, hash).value;
      FramesPut(rest, room - 1, isKey, hash);
      var more := TakeFrames(rest, room - 1, isKey, hash).value;
      assert ([r] + more)[1..] == more;
    }
  }

  /// Decoding a segment's bytes gives the segment back exactly when it holds no
  /// more records than a decode accepts; past that, the refusal says so.
  lemma {:induction false} SegmentsRoundTrip(s: Segment, isKey: Id -> bool, hash: Bytes -> Id)
    requires Writable(s, isKey, hash)
    ensures TakeSegment(SegmentBytes(s), isKey, hash)
            == if |s.records| <= MAX_RECORDS_PER_SEGMENT then Ok(s) else Err(TooManyRecords)
  {
    hide PutHeader, TakeHeader, Frames, TakeFrames, AllWellFormed;
    HeaderTaken(s, Frames(s.records));
    FramesTaken(s.records, MAX_RECORDS_PER_SEGMENT, isKey, hash);
  }

  /// Different segments have different bytes, however long they are.
  lemma {:induction false} BytesNameSegments(s: Segment, t: Segment, isKey: Id -> bool, hash: Bytes -> Id)
    requires Writable(s, isKey, hash) && Writable(t, isKey, hash)
    requires SegmentBytes(s) == SegmentBytes(t)
    ensures s == t
  {
    hide PutHeader, TakeHeader, Frames, TakeFrames, AllWellFormed;
    HeaderTaken(s, Frames(s.records));
    HeaderTaken(t, Frames(t.records));
    FramesTaken(s.records, |s.records| + |t.records|, isKey, hash);
    FramesTaken(t.records, |s.records| + |t.records|, isKey, hash);
  }

  /// And every accepted encoding is the only one of the segment it decodes to.
  lemma {:induction false} AcceptedSegmentsReEmit(b: Bytes, isKey: Id -> bool, hash: Bytes -> Id)
    requires TakeSegment(b, isKey, hash).Ok?
    ensures var s := TakeSegment(b, isKey, hash).value;
            SegmentBytes(s) == b && Writable(s, isKey, hash) && |s.records| <= MAX_RECORDS_PER_SEGMENT
  {
    hide PutHeader, TakeHeader, Frames, TakeFrames, AllWellFormed;
    HeaderPut(b);
    var Got(h, rest) := TakeHeader(b);
    FramesPut(rest, MAX_RECORDS_PER_SEGMENT, isKey, hash);
    SameHeader(TakeSegment(b, isKey, hash).value, h, rest);
  }

  /// The loop of the source: frames until the input runs out.
  method Decode(b: Bytes, isKey: Id -> bool, hash: Bytes -> Id) returns (out: Result<Segment, SegmentError>)
    ensures out == TakeSegment(b, isKey, hash)
  {
    hide TakeHeader, TakeFrame;
    var header := TakeHeader(b);
    if header.Fail? {
      return Err(Malformed(header.why));
    }
    if !isKey(header.value.author) {
      return Err(BadAuthor);
    }
    var rest, records: seq<Record> := header.rest, [];
    ghost var whole := TakeFrames(header.rest, MAX_RECORDS_PER_SEGMENT, isKey, hash);
    assert whole.Ok? ==> [] + whole.value == whole.value;
    while rest != []
      invariant |records| <= MAX_RECORDS_PER_SEGMENT
      invariant whole == Prepended(records, TakeFrames(rest, MAX_RECORDS_PER_SEGMENT - |records|, isKey, hash))
      decreases |rest|
    {
      if |records| == MAX_RECORDS_PER_SEGMENT {
        return Err(TooManyRecords);
      }
      var taken := TakeFrame(rest, isKey, hash);
      if taken.Err? {
        return Err(taken.error);
      }
      ghost var later := TakeFrames(taken.value.rest, MAX_RECORDS_PER_SEGMENT - |records| - 1, isKey, hash);
      assert later.Ok? ==>
          records + ([taken.value.record] + later.value) == (records + [taken.value.record]) + later.value;
      rest, records := taken.value.rest, records + [taken.value.record];
    }
    assert records + [] == records;
    out := Ok(header.value.(records := records));
  }

  function Prepended(records: seq<Record>, more: Result<seq<Record>, SegmentError>): Result<seq<Record>, SegmentError> {
    match more
    case Err(error) => Err(error)
    case Ok(rest) => Ok(records + rest)
  }

  // ------------------------------------------------------------------------
  // Order
  // ------------------------------------------------------------------------

  /// Ascending by `(hlc, id)`, and readings strictly increasing per device.
  predicate InOrder(records: seq<Record>) {
    && Ascending(records)
    && forall i, j :: 0 <= i < j < |records| && records[i].device == records[j].device ==>
         records[i].hlc.Less(records[j].hlc)
  }

  /// Comparing neighbours compares all.
  lemma {:induction false} NeighboursSuffice(rs: seq<Record>)
    ensures Ascending(rs) <==> forall k :: 0 <= k < |rs| - 1 ==> rs[k].Position().Less(rs[k + 1].Position())
  {
    if forall k :: 0 <= k < |rs| - 1 ==> rs[k].Position().Less(rs[k + 1].Position()) {
      forall i, j | 0 <= i < j < |rs| ensures rs[i].Position().Less(rs[j].Position()) {
        ChainOfNeighbours(rs, i, j);
      }
    }
  }

  lemma {:induction false} ChainOfNeighbours(rs: seq<Record>, i: nat, j: nat)
    requires i < j < |rs|
    requires forall k :: 0 <= k < |rs| - 1 ==> rs[k].Position().Less(rs[k + 1].Position())
    ensures rs[i].Position().Less(rs[j].Position())
    decreases j
  {
    if i + 1 < j {
      ChainOfNeighbours(rs, i, j - 1);
    }
    assert rs[j - 1].Position().Less(rs[j - 1 + 1].Position());
  }

  /// The last reading of one device.
  function LastOf(records: seq<Record>, device: Id): Option<Hlc> {
    if records == [] then None
    else if records[|records| - 1].device == device then Some(records[|records| - 1].hlc)
    else LastOf(records[..|records| - 1], device)
  }

  /// Each record after the last of its device, read front to back.
  predicate Strict(records: seq<Record>) {
    records == []
    || (var front, r := records[..|records| - 1], records[|records| - 1];
        Strict(front) && (LastOf(front, r.device).Some? ==> LastOf(front, r.device).value.Less(r.hlc)))
  }

  lemma {:induction false} LastOfMeans(records: seq<Record>, device: Id)
    requires Strict(records)
    ensures LastOf(records, device).None? <==> forall k :: 0 <= k < |records| ==> records[k].device != device
    ensures LastOf(records, device).Some? ==>
              (exists k :: 0 <= k < |records| && records[k].device == device
                           && records[k].hlc == LastOf(records, device).value)
              && (forall k :: 0 <= k < |records| && records[k].device == device ==>
                    records[k].hlc == LastOf(records, device).value
                    || records[k].hlc.Less(LastOf(records, device).value))
  {
    if records != [] {
      var front, r := records[..|records| - 1], records[|records| - 1];
      LastOfMeans(front, device);
      forall k | 0 <= k < |front| ensures records[k] == front[k] {}
    }
  }

  /// Checking each record against its device's last checks every pair.
  lemma {:induction false} StrictMeans(records: seq<Record>)
    ensures Strict(records) <==>
            forall i, j :: 0 <= i < j < |records| && records[i].device == records[j].device ==>
              records[i].hlc.Less(records[j].hlc)
  {
    if records != [] {
      var n := |records| - 1;
      var front, r := records[..n], records[n];
      StrictMeans(front);
      if Strict(front) {
        LastOfMeans(front, r.device);
      } else {
        var i, j :| 0 <= i < j < n && front[i].device == front[j].device && !front[i].hlc.Less(front[j].hlc);
        assert records[i] == front[i] && records[j] == front[j];
      }
    }
  }

  /// Every record against its neighbour.
  method NeighboursAscend(records: seq<Record>) returns (ascending: bool)
    ensures ascending <==> Ascending(records)
  {
    NeighboursSuffice(records);
    hide Ascending;
    ascending := true;
    for k := 0 to |records|
      invariant ascending <==> forall i :: 0 <= i < k && i < |records| - 1 ==>
                                 records[i].Position().Less(records[i + 1].Position())
    {
      if k + 1 < |records| && !records[k].Position().Less(records[k + 1].Position()) {
        ascending := false;
      }
    }
  }

  /// Every record against the last of its device.
  method DevicesAdvance(records: seq<Record>) returns (strict: bool)
    ensures strict <==> Strict(records)
  {
    strict := true;
    var perDevice: map<Id, Hlc> := map[];
    ghost var done: seq<Record> := [];
    for k := 0 to |records|
      invariant done == records[..k]
      invariant forall d: Id :: (if d in perDevice then Some(perDevice[d]) else None) == LastOf(done, d)
      invariant strict <==> Strict(done)
    {
      var record := records[k];
      assert (done + [record])[..k] == done;
      assert LastOf(done, record.device)
        == (if record.device in perDevice then Some(perDevice[record.device]) else None);
      if record.device in perDevice && !perDevice[record.device].Less(record.hlc) {
        strict := false;
      }
      perDevice := perDevice[record.device := record.hlc];
      done := done + [record];
    }
    assert done == records;
  }

  /// The two checks of the source together.
  method OrderingIsValid(records: seq<Record>) returns (valid: bool)
    ensures valid <==> InOrder(records)
  {
    var ascending := NeighboursAscend(records);
    var strict := DevicesAdvance(records);
    StrictMeans(records);
    valid := ascending && strict;
  }
}
