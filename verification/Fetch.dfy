/**
  Getting a segment (crates/kols-net/src/publish.rs): what is still to be asked
  for, and what can be made of what has come.
 */
module Fetch {
  import opened Prelude
  import opened Segments

  /** A manifest: the chunks of an object, and how long it says it is. */
  datatype Manifest = Manifest(chunks: seq<Id>, plaintextLen: u64)

  /** What a node holds by content address, and the objects whose chunks came to
      more than their manifest declared. */
  datatype Node = Node(chunks: map<Id, Bytes>, overran: set<Id>)

  /** The storage layer: how a manifest is read, and an object put together. */
  datatype Storage = Storage(parse: Bytes -> Option<Manifest>, decode: (Manifest, map<Id, Bytes>, Id) -> Option<Bytes>)

  datatype NetError =
    | Overran
    | ChunksUnavailable(missing: seq<Id>)
    | StorageError
    | Implausible
    | TooLarge
    | MalformedSegment(why: SegmentError)

  /// Refuses what a manifest declares, before any of it is asked for.
  function WithinCeiling(manifest: Manifest, maxBytes: nat): Option<NetError> {
    if |manifest.chunks| > manifest.plaintextLen then Some(Implausible)
    else if manifest.plaintextLen > maxBytes then Some(NetError.TooLarge)
    else None
  }

  function Absent(node: Node): Id -> bool {
    (cid: Id) => cid !in node.chunks
  }

  /// What must still be fetched.
  function WantedChunks(node: Node, cid: Id, storage: Storage, maxBytes: nat): seq<Id> {
    if cid in node.overran then []
    else if cid !in node.chunks then [cid]
    else
      match storage.parse(node.chunks[cid])
      case None => []
      case Some(manifest) =>
        if WithinCeiling(manifest, maxBytes).Some? then [] else Filter(manifest.chunks, Absent(node))
  }

  /// The held chunks of a list.
  function Held(node: Node, chunks: seq<Id>): map<Id, Bytes> {
    map c | c in chunks && c in node.chunks :: node.chunks[c]
  }

  /// A segment from what is held.
  method FetchSegment(
      node: Node, cid: Id, dek: Id, storage: Storage, maxBytes: nat, isKey: Id -> bool, hash: Bytes -> Id)
    returns (out: Result<Segment, NetError>)
    ensures out == Fetched(node, cid, dek, storage, maxBytes, isKey, hash)
  {
    hide TakeSegment, Filter;
    if cid in node.overran {
      return Err(Overran);
    }
    if cid !in node.chunks {
      return Err(ChunksUnavailable([cid]));
    }
    var parsed := storage.parse(node.chunks[cid]);
    if parsed.None? {
      return Err(StorageError);
    }
    var manifest := parsed.value;
    var refusal := WithinCeiling(manifest, maxBytes);
    if refusal.Some? {
      return Err(refusal.value);
    }
    var blobs, missing := Collect(node, manifest.chunks);
    if missing != [] {
      return Err(ChunksUnavailable(missing));
    }
    var plaintext := storage.decode(manifest, blobs, dek);
    if plaintext.None? {
      return Err(StorageError);
    }
    out := match TakeSegment(plaintext.value, isKey, hash)
      case Err(why) => Err(MalformedSegment(why))
      case Ok(s) => Ok(s);
  }

  lemma {:induction false} HoldsNothing(node: Node)
    ensures Held(node, []) == map[] && Filter<Id>([], Absent(node)) == []
  {
  }

  lemma {:induction false} HeldStep(node: Node, chunks: seq<Id>, c: Id)
    ensures Held(node, chunks + [c])
            == if c in node.chunks then Held(node, chunks)[c := node.chunks[c]] else Held(node, chunks)
  {
  }

  /// The loop over the manifest: what is there, and what is not.
  method Collect(node: Node, chunks: seq<Id>) returns (blobs: map<Id, Bytes>, missing: seq<Id>)
    ensures blobs == Held(node, chunks) && missing == Filter(chunks, Absent(node))
  {
    hide Held, Filter;
    blobs, missing := map[], [];
    HoldsNothing(node);
    for k := 0 to |chunks|
      invariant blobs == Held(node, chunks[..k]) && missing == Filter(chunks[..k], Absent(node))
    {
      var c := chunks[k];
      assert chunks[..k + 1] == chunks[..k] + [c];
      FilterAppend(chunks[..k], c, Absent(node));
      HeldStep(node, chunks[..k], c);
      if c in node.chunks {
        blobs := blobs[c := node.chunks[c]];
      } else {
        missing := missing + [c];
      }
    }
    assert chunks[..|chunks|] == chunks;
  }

  function Fetched(
      node: Node, cid: Id, dek: Id, storage: Storage, maxBytes: nat, isKey: Id -> bool, hash: Bytes -> Id)
    : Result<Segment, NetError>
  {
    if cid in node.overran then Err(Overran)
    else if cid !in node.chunks then Err(ChunksUnavailable([cid]))
    else
      match storage.parse(node.chunks[cid])
      case None => Err(StorageError)
      case Some(manifest) =>
        if WithinCeiling(manifest, maxBytes).Some? then Err(WithinCeiling(manifest, maxBytes).value)
        else if Filter(manifest.chunks, Absent(node)) != [] then
          Err(ChunksUnavailable(Filter(manifest.chunks, Absent(node))))
        else Assembled(manifest, Held(node, manifest.chunks), dek, storage, isKey, hash)
  }

  function Assembled(
      manifest: Manifest, blobs: map<Id, Bytes>, dek: Id, storage: Storage, isKey: Id -> bool, hash: Bytes -> Id)
    : (out: Result<Segment, NetError>)
    ensures out.Err? ==> !out.error.ChunksUnavailable?
  {
    hide TakeSegment;
    match storage.decode(manifest, blobs, dek)
    case None => Err(StorageError)
    case Some(plaintext) =>
      match TakeSegment(plaintext, isKey, hash)
      case Err(why) => Err(MalformedSegment(why))
      case Ok(s) => Ok(s)
  }

  // ------------------------------------------------------------------------
  // Asking and answering agree
  // ------------------------------------------------------------------------

  /// A fetch says chunks are missing exactly where some are wanted, and names
  /// the same ones; every other answer, a segment or a refusal, wants no more.
  lemma {:induction false} MissingMeansWanted(
      node: Node, cid: Id, dek: Id, storage: Storage, maxBytes: nat, isKey: Id -> bool, hash: Bytes -> Id)
    ensures var out := Fetched(node, cid, dek, storage, maxBytes, isKey, hash);
            var wanted := WantedChunks(node, cid, storage, maxBytes);
            && (wanted != [] ==> out == Err(ChunksUnavailable(wanted)))
            && (wanted == [] ==> out.Ok? || !out.error.ChunksUnavailable?)
  {
    hide TakeSegment, Filter, Assembled;
  }

  /// What a fetch refuses, by the first thing wrong: an object found to overrun
  /// what it declared, a manifest that does not read, more chunks than bytes, more
  /// bytes than the ceiling.
  lemma {:induction false} FetchRefuses(
      node: Node, cid: Id, dek: Id, storage: Storage, maxBytes: nat, isKey: Id -> bool, hash: Bytes -> Id,
      out: Result<Segment, NetError>)
    requires out == Fetched(node, cid, dek, storage, maxBytes, isKey, hash)
    ensures var held := cid in node.chunks && cid !in node.overran;
            var parsed := if held then storage.parse(node.chunks[cid]) else None;
            && (out == Err(Overran) <==> cid in node.overran)
            && (out == Err(Implausible) <==> parsed.Some? && |parsed.value.chunks| > parsed.value.plaintextLen)
            && (out == Err(NetError.TooLarge) <==>
                  parsed.Some? && |parsed.value.chunks| <= parsed.value.plaintextLen
                  && parsed.value.plaintextLen > maxBytes)
            && (held && parsed.None? ==> out == Err(StorageError))
            && (out.Ok? ==> parsed.Some? && forall c :: c in parsed.value.chunks ==> c in node.chunks)
  {
    hide TakeSegment, Filter;
    if cid in node.chunks && storage.parse(node.chunks[cid]).Some? {
      FilterMembers(storage.parse(node.chunks[cid]).value.chunks, Absent(node));
      NotInNothing(storage.parse(node.chunks[cid]).value.chunks, node);
    }
  }

  lemma {:induction false} NotInNothing(chunks: seq<Id>, node: Node)
    ensures Filter(chunks, Absent(node)) == [] ==> forall c :: c in chunks ==> c in node.chunks
  {
    FilterMembers(chunks, Absent(node));
    forall c | c in chunks && c !in node.chunks ensures c in Filter(chunks, Absent(node)) {
    }
  }

  /// No manifest, however it was made, has a reader ask for more chunks than the
  /// ceiling has bytes.
  lemma {:induction false} WantedIsBounded(node: Node, cid: Id, storage: Storage, maxBytes: nat)
    ensures WantedChunks(node, cid, storage, maxBytes) == [cid]
            || |WantedChunks(node, cid, storage, maxBytes)| <= maxBytes
  {
    hide Filter;
  }

  /// What a node holds once it is sent some chunks. A chunk is only ever kept
  /// under its own address, so what arrives is decided by what was asked for;
  /// some of it may be found to be more than was declared.
  function Delivered(node: Node, wanted: seq<Id>, content: Id -> Bytes, overran: set<Id>): Node {
    Node(node.chunks + (map c | c in wanted :: content(c)), node.overran + overran)
  }

  /// Two rounds are enough: the manifest, then the chunks it names.
  lemma {:induction false} TwoRoundsSuffice(
      node: Node, cid: Id, storage: Storage, maxBytes: nat, content: Id -> Bytes, overran: set<Id>, overran': set<Id>)
    ensures var once := Delivered(node, WantedChunks(node, cid, storage, maxBytes), content, overran);
            var twice := Delivered(once, WantedChunks(once, cid, storage, maxBytes), content, overran');
            WantedChunks(twice, cid, storage, maxBytes) == []
  {
    hide Filter, Delivered;
    var once := Delivered(node, WantedChunks(node, cid, storage, maxBytes), content, overran);
    OneRound(node, cid, storage, maxBytes, content, overran);
    OneRound(once, cid, storage, maxBytes, content, overran');
  }

  /// A round brings the manifest, or else everything.
  lemma {:induction false} OneRound(
      node: Node, cid: Id, storage: Storage, maxBytes: nat, content: Id -> Bytes, overran: set<Id>)
    ensures var after := Delivered(node, WantedChunks(node, cid, storage, maxBytes), content, overran);
            && (cid !in node.overran ==> cid in after.chunks)
            && (cid in node.overran ==> cid in after.overran)
            && (cid in node.overran || cid in node.chunks ==> WantedChunks(after, cid, storage, maxBytes) == [])
  {
    hide Filter;
    var wanted := WantedChunks(node, cid, storage, maxBytes);
    var after := Delivered(node, wanted, content, overran);
    if cid !in node.overran && cid in node.chunks {
      match storage.parse(node.chunks[cid]) {
        case None =>
        case Some(manifest) =>
          if WithinCeiling(manifest, maxBytes).None? {
            FilterMembers(manifest.chunks, Absent(node));
            FilterNone(manifest.chunks, Absent(after));
          }
      }
    }
  }

  // ------------------------------------------------------------------------
  // From a writer to a reader
  // ------------------------------------------------------------------------

  /// What the storage layer promises of an object it encoded: the manifest it
  /// stored reads back as one that declares the object's length and names no
  /// empty chunk, and its chunks decode to the object under its key.
  predicate Stores(storage: Storage, content: Id -> Bytes, cid: Id, manifest: Manifest, dek: Id, plaintext: Bytes) {
    && storage.parse(content(cid)) == Some(manifest)
    && manifest.plaintextLen == |plaintext| && |manifest.chunks| <= |plaintext|
    && storage.decode(manifest, map c | c in manifest.chunks :: content(c), dek) == Some(plaintext)
  }

  /// A node that holds nothing gets a published segment in two rounds, exactly
  /// when the segment is within the ceiling it is held to and the number of
  /// records a reader takes.
  lemma {:induction false} PublishedSegmentsArrive(
      segment: Segment, storage: Storage, content: Id -> Bytes, cid: Id, manifest: Manifest, dek: Id, maxBytes: nat,
      isKey: Id -> bool, hash: Bytes -> Id)
    requires Writable(segment, isKey, hash) && Stores(storage, content, cid, manifest, dek, SegmentBytes(segment))
    ensures var once := Delivered(Node(map[], {}), [cid], content, {});
            var twice := Delivered(once, WantedChunks(once, cid, storage, maxBytes), content, {});
            Fetched(twice, cid, dek, storage, maxBytes, isKey, hash)
            == if |SegmentBytes(segment)| > maxBytes then Err(NetError.TooLarge)
               else if |segment.records| > MAX_RECORDS_PER_SEGMENT then Err(MalformedSegment(TooManyRecords))
               else Ok(segment)
  {
    hide TakeSegment, SegmentBytes, Filter, Writable;
    var once := Delivered(Node(map[], {}), [cid], content, {});
    var wanted := WantedChunks(once, cid, storage, maxBytes);
    var twice := Delivered(once, wanted, content, {});
    SegmentsRoundTrip(segment, isKey, hash);
    FilterMembers(manifest.chunks, Absent(once));
    assert once.chunks[cid] == content(cid) && twice.chunks[cid] == content(cid);
    if |SegmentBytes(segment)| <= maxBytes {
      forall c | c in manifest.chunks ensures c in twice.chunks && twice.chunks[c] == content(c) {
        assert c in once.chunks ==> c == cid;
      }
      FilterNone(manifest.chunks, Absent(twice));
      assert Held(twice, manifest.chunks) == map c | c in manifest.chunks :: content(c);
    }
  }
}
