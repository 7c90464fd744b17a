/**
  One author's log for one channel, as its writer holds it
  (crates/kols-core/src/log.rs): pushes extend one encoding, a publish walks a
  pointer's version forward, a seal starts the next segment and a rebase merges
  what a concurrent device published.
 */
module Logs {
  import opened Prelude
  import opened Records
  import opened Segments

  /** A signed pointer: what it is called, the key it commits to, how many times
      it has been updated and the object it names. An object is its plaintext
      here, chunking and sealing being deterministic in it and the key. */
  datatype Pointer = Pointer(id: Id, dek: Id, version: nat, content: Bytes)

  /** What governance lets this author do to a pointer: create one, update one. */
  datatype Gate = Gate(publish: bool, update: bool)

  const OPEN_GATE := Gate(true, true)

  datatype LogError = BadSignature | NonMonotonicClock(previous: Hlc, offered: Hlc) | Storage

  /** Where the pointer of an author's n-th segment in a channel lives. */
  type Derivation = (Id, Id, u64) -> Id

  /** A log. The bytes given to the encoder are not part of it: they are a
      function of the segment, which is what `AuthorLog` keeps true. */
  datatype Log = Log(channel: Id, pointerId: Id, dek: Id, segment: Segment, pointer: Option<Pointer>, unpublished: nat)

  // ------------------------------------------------------------------------
  // What each operation does
  // ------------------------------------------------------------------------

  function Opened(pointerOf: Derivation, author: Id, channel: Id, dek: Id): Log {
    Log(channel, pointerOf(channel, author, 0), dek, Segment(channel, author, 0, None, []), None, 0)
  }

  /// Whether a push is refused, and why.
  function Objection(log: Log, author: Id, r: Record): Option<LogError> {
    if r.channel != log.channel || r.author != author then Some(LogError.BadSignature)
    else
      match LastOf(log.segment.records, r.device)
      case None => None
      case Some(last) => if last.Less(r.hlc) then None else Some(NonMonotonicClock(last, r.hlc))
  }

  function Extended(log: Log, r: Record): Log {
    log.(segment := log.segment.(records := log.segment.records + [r]), unpublished := log.unpublished + 1)
  }

  function Pushed(log: Log, author: Id, r: Record): Log {
    if Objection(log, author, r).None? then Extended(log, r) else log
  }

  /// How many versions a publish walks: one for each record pushed since the
  /// last, and at least one.
  function Due(log: Log): (n: nat)
    ensures n >= 1 && n >= log.unpublished
  {
    if log.unpublished > 1 then log.unpublished else 1
  }

  predicate Allows(gate: Gate, log: Log) {
    if log.pointer.None? then gate.publish && (Due(log) > 1 ==> gate.update) else gate.update
  }

  /// The version a first publish gives is zero, and every further step adds one.
  function NextPointer(log: Log): Pointer {
    match log.pointer
    case None => Pointer(log.pointerId, log.dek, Due(log) - 1, SegmentBytes(log.segment))
    case Some(prior) => prior.(version := prior.version + Due(log), content := SegmentBytes(log.segment))
  }

  function Published(log: Log): Log {
    log.(pointer := Some(NextPointer(log)), unpublished := 0)
  }

  function Sealed(pointerOf: Derivation, log: Log, manifest: Id, next: Id): Log
    requires log.segment.sequence < U64_MAX
  {
    var sequence := log.segment.sequence + 1;
    Log(log.channel, pointerOf(log.channel, log.segment.author, sequence), next,
        Segment(log.channel, log.segment.author, sequence, Some(manifest), []), None, 0)
  }

  predicate Rebasable(log: Log, canonical: Pointer, segment: Segment) {
    canonical.id == log.pointerId && segment.channel == log.channel && segment.author == log.segment.author
  }

  /// The record lists of two versions, merged by `(hlc, id)`.
  function Merged(theirs: seq<Record>, ours: seq<Record>): (merged: seq<Record>)
    ensures Ascending(merged)
  {
    InsertAll([], theirs + ours)
  }

  /// A log that has taken on the winner's pointer and both sides' records.
  function Adopted(log: Log, canonical: Pointer, segment: Segment): Log {
    log.(segment := log.segment.(sequence := segment.sequence, previous := segment.previous,
                                 records := Merged(segment.records, log.segment.records)),
         pointer := Some(canonical))
  }

  /// The last record of a device in the open segment.
  predicate LastBy(records: seq<Record>, device: Id, k: nat) {
    k < |records| && records[k].device == device && forall j :: k < j < |records| ==> records[j].device != device
  }

  lemma {:induction false} LastOfIsTheLast(records: seq<Record>, device: Id)
    ensures forall k: nat :: LastBy(records, device, k) ==> LastOf(records, device) == Some(records[k].hlc)
    ensures LastOf(records, device).Some? ==> exists k: nat :: LastBy(records, device, k)
  {
    if records != [] {
      var n := |records| - 1;
      var front := records[..n];
      LastOfIsTheLast(front, device);
      if records[n].device == device {
        assert LastBy(records, device, n);
      } else {
        forall k: nat ensures LastBy(records, device, k) <==> LastBy(front, device, k) {
          assert k < n ==> records[k] == front[k];
          if LastBy(front, device, k) {
            forall j | k < j < |records| ensures records[j].device != device {
              assert j < n ==> records[j] == front[j];
            }
          }
          if LastBy(records, device, k) {
            forall j | k < j < |front| ensures front[j].device != device {
              assert front[j] == records[j];
            }
          }
        }
      }
    }
  }

  /// When a push is refused: a record of another channel or author, or one not
  /// past the last its own device wrote in this segment.
  lemma {:induction false} ObjectionMeans(log: Log, author: Id, r: Record)
    ensures var ours := r.channel == log.channel && r.author == author;
            var rs := log.segment.records;
            && (Objection(log, author, r) == Some(LogError.BadSignature) <==> !ours)
            && (Objection(log, author, r).None?
                <==> ours && forall k: nat :: LastBy(rs, r.device, k) ==> rs[k].hlc.Less(r.hlc))
            && (forall k: nat :: ours && LastBy(rs, r.device, k) && !rs[k].hlc.Less(r.hlc) ==>
                  Objection(log, author, r) == Some(NonMonotonicClock(rs[k].hlc, r.hlc)))
  {
    LastOfIsTheLast(log.segment.records, r.device);
  }

  /// When governance lets a publish through: it may create the pointer if there is
  /// none, and update it for every version after the first.
  lemma {:induction false} AllowsMeans(gate: Gate, log: Log)
    ensures Allows(gate, log) <==>
            && (log.pointer.None? ==> gate.publish)
            && (log.pointer.Some? || log.unpublished > 1 ==> gate.update)
  {
  }

  // ------------------------------------------------------------------------
  // The log itself
  // ------------------------------------------------------------------------

  class AuthorLog {
    const pointerOf: Derivation
    const channel: Id
    var pointerId: Id
    var dek: Id
    var segment: Segment
    var pointer: Option<Pointer>
    var encoder: Bytes
    var unpublished: nat

    function State(): Log
      reads this
    {
      Log(channel, pointerId, dek, segment, pointer, unpublished)
    }

    /// What was given to the encoder is the segment's whole encoding.
    ghost predicate Valid()
      reads this
    {
      encoder == SegmentBytes(segment)
    }

    constructor (pointerOf: Derivation, author: Id, channel: Id, dek: Id)
      ensures Valid() && this.pointerOf == pointerOf && State() == Opened(pointerOf, author, channel, dek)
    {
      hide SegmentBytes, HeaderBytes;
      this.pointerOf, this.channel, this.dek := pointerOf, channel, dek;
      pointerId := pointerOf(channel, author, 0);
      var empty := Segment(channel, author, 0, None, []);
      segment := empty;
      encoder := HeaderBytes(empty);
      pointer := None;
      unpublished := 0;
      new;
      NoRecords(empty);
      assert empty.(records := []) == empty;
    }

    /// This device's last reading in the open segment, found from the end.
    method LastReading(device: Id) returns (last: Option<Hlc>)
      ensures last == LastOf(segment.records, device)
    {
      var records := segment.records;
      var i := |records|;
      assert records[..i] == records;
      while i > 0
        invariant 0 <= i <= |records|
        invariant LastOf(records, device) == LastOf(records[..i], device)
      {
        assert records[..i][..i - 1] == records[..i - 1];
        if records[i - 1].device == device {
          return Some(records[i - 1].hlc);
        }
        i := i - 1;
      }
      last := None;
    }

    /// A push adds one frame to the bytes already given and changes no other.
    method Push(author: Id, record: Record) returns (out: Option<LogError>)
      requires Valid()
      modifies this`segment, this`encoder, this`unpublished
      ensures Valid() && out == Objection(old(State()), author, record)
      ensures State() == Pushed(old(State()), author, record)
      ensures encoder == if out.None? then old(encoder) + Framed(record) else old(encoder)
    {
      hide SegmentBytes, Framed;
      if record.channel != channel || record.author != author {
        return Some(LogError.BadSignature);
      }
      var last := LastReading(record.device);
      if last.Some? && !last.value.Less(record.hlc) {
        return Some(NonMonotonicClock(last.value, record.hlc));
      }
      AppendExtends(segment, record);
      encoder := encoder + Framed(record);
      segment := segment.(records := segment.records + [record]);
      unpublished := unpublished + 1;
      out := None;
    }

    /// The pointer is walked one version at a time. A walk governance refuses
    /// part-way leaves the log as it was.
    method PublishCurrent(gate: Gate) returns (out: Result<Pointer, LogError>)
      requires Valid()
      modifies this`pointer, this`unpublished
      ensures Valid()
      ensures Allows(gate, old(State())) ==>
                out == Ok(NextPointer(old(State()))) && State() == Published(old(State()))
      ensures !Allows(gate, old(State())) ==> out == Err(Storage) && State() == old(State())
    {
      hide SegmentBytes;
      var versions := if unpublished > 1 then unpublished else 1;
      var walked: Pointer;
      if pointer.None? {
        if !gate.publish {
          return Err(Storage);
        }
        walked := Pointer(pointerId, dek, 0, encoder);
      } else {
        if !gate.update {
          return Err(Storage);
        }
        walked := pointer.value.(version := pointer.value.version + 1, content := encoder);
      }
      ghost var first := walked;
      for step := 1 to versions
        invariant walked == first.(version := first.version + step - 1)
        invariant step > 1 ==> gate.update
      {
        if !gate.update {
          return Err(Storage);
        }
        walked := walked.(version := walked.version + 1, content := encoder);
      }
      unpublished := 0;
      pointer := Some(walked);
      out := Ok(walked);
    }

    /// A push and a publish. A refused push publishes nothing; a refused publish
    /// keeps what was pushed.
    method Append(author: Id, record: Record, gate: Gate) returns (out: Result<Pointer, LogError>)
      requires Valid()
      modifies this`segment, this`encoder, this`unpublished, this`pointer
      ensures Valid()
      ensures var before := old(State());
              match Objection(before, author, record)
              case Some(error) => out == Err(error) && State() == before
              case None =>
                var pushed := Extended(before, record);
                if Allows(gate, pushed) then out == Ok(NextPointer(pushed)) && State() == Published(pushed)
                else out == Err(Storage) && State() == pushed
    {
      hide SegmentBytes, Objection, NextPointer, Allows;
      var objection := Push(author, record);
      if objection.Some? {
        return Err(objection.value);
      }
      out := PublishCurrent(gate);
    }

    /// Starts the next segment, under its own pointer and key. The addition the
    /// source makes has to fit its counter.
    method Seal(manifest: Id, next: Id)
      requires Valid() && segment.sequence < U64_MAX
      modifies this
      ensures Valid() && State() == Sealed(pointerOf, old(State()), manifest, next)
      ensures encoder == HeaderBytes(segment)
    {
      hide SegmentBytes, HeaderBytes;
      var sequence := segment.sequence + 1;
      segment := Segment(channel, segment.author, sequence, Some(manifest), []);
      pointerId := pointerOf(channel, segment.author, sequence);
      dek := next;
      pointer := None;
      unpublished := 0;
      encoder := HeaderBytes(segment);
      NoRecords(segment);
      assert segment.(records := []) == segment;
    }

    /// Merges what won a version collision, and publishes above it. When the
    /// publish is refused the merge stands, unpublished.
    method Rebase(canonical: Pointer, theirs: Segment, gate: Gate) returns (out: Result<Pointer, LogError>)
      requires Valid()
      modifies this`segment, this`encoder, this`pointer, this`unpublished
      ensures Valid()
      ensures !Rebasable(old(State()), canonical, theirs) ==>
                out == Err(LogError.BadSignature) && State() == old(State())
      ensures Rebasable(old(State()), canonical, theirs) ==>
                var adopted := Adopted(old(State()), canonical, theirs);
                if gate.update then out == Ok(NextPointer(adopted)) && State() == Published(adopted)
                else out == Err(Storage) && State() == adopted
    {
      hide SegmentBytes, NextPointer;
      if canonical.id != pointerId || theirs.channel != channel || theirs.author != segment.author {
        return Err(LogError.BadSignature);
      }
      var union := InsertInto([], theirs.records);
      InsertAllConcat([], theirs.records, segment.records);
      union := InsertInto(union, segment.records);
      segment := segment.(sequence := theirs.sequence, previous := theirs.previous, records := union);
      pointer := Some(canonical);
      encoder := CanonicalBytes(segment);
      out := PublishCurrent(gate);
    }
  }

  /// Collecting into a map ordered by `(hlc, id)`, one record at a time.
  method InsertInto(kept: seq<Record>, more: seq<Record>) returns (union: seq<Record>)
    requires Ascending(kept)
    ensures Ascending(union) && union == InsertAll(kept, more)
  {
    hide Ascending, Insert;
    union := kept;
    for k := 0 to |more|
      invariant Ascending(union) && union == InsertAll(kept, more[..k])
    {
      assert more[..k + 1][..k] == more[..k];
      union := Insert(union, more[k]);
    }
    assert more[..|more|] == more;
  }
}
