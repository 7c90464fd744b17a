/**
  A record's canonical bytes (crates/kols-core/src/record.rs). An identifier is
  the hash of these bytes, so the encoding has to be exact in both directions,
  and for kinds this build does not know as well.
 */
module RecordCodec {
  import opened Prelude
  import opened Records
  import opened Wire

  function RecordDomain(): (domain: Bytes)
    ensures |domain| == 23
  {
    Ascii("intranet.chat-record.v1")
  }

  datatype CodecError = Malformed(why: DecodeError) | BadKey | UnknownKind(tag: byte)

  /// The tags this build gives a meaning to.
  predicate Known(tag: byte) {
    tag == 0x01 || tag == 0x02 || tag == 0x03 || tag == 0x40 || tag == 0x41 || tag == 0x80
  }

  /** Everything ahead of the body. */
  datatype Header = Header(channel: Id, author: Id, device: Id, hlc: Hlc, tag: byte)

  function HeaderOf(r: Record): Header {
    Header(r.channel, r.author, r.device, r.hlc, r.body.Tag())
  }

  function PutStamp(hlc: Hlc, tag: byte, tail: Bytes): Bytes {
    PutI64(hlc.wall, PutUint(hlc.counter, 4, PutUint(tag, 1, tail)))
  }

  function PutHeader(h: Header, tail: Bytes): Bytes {
    PutBytes(RecordDomain(), PutId(h.channel, PutId(h.author, PutId(h.device, PutStamp(h.hlc, h.tag, tail)))))
  }

  function PutAttachments(attachments: seq<Attachment>, tail: Bytes): Bytes {
    if attachments == [] then tail
    else
      var a := attachments[0];
      PutId(a.manifest, PutUint(a.byteLen, 8, PutBytes(a.mediaType, PutBytes(a.name,
        PutAttachments(attachments[1..], tail)))))
  }

  function PutBody(body: Body, tail: Bytes): Bytes {
    match body
    case Message(text, replyTo, attachments) =>
      PutBytes(text, PutOptionalId(replyTo, PutUint(|attachments|, 8, PutAttachments(attachments, tail))))
    case Edit(target, text) => PutId(target, PutBytes(text, tail))
    case Tombstone(target) => PutId(target, tail)
    case Reaction(target, key, remove) => PutId(target, PutBytes(key, PutBool(remove, tail)))
    case Pin(target, remove) => PutId(target, PutBool(remove, tail))
    case Redaction(target, head) => PutId(target, PutId(head, tail))
    case Unknown(_, bytes) => bytes + tail
  }

  /// The complete canonical bytes: the signed payload, then the signature.
  function Canonical(r: Record): Bytes {
    PutHeader(HeaderOf(r), PutBody(r.body, r.signature))
  }

  // ------------------------------------------------------------------------
  // Reading
  // ------------------------------------------------------------------------

  /// The reading, and the discriminant that follows it.
  function TakeStamp(b: Bytes): Parsed<(Hlc, byte)> {
    match TakeI64(b)
    case Fail(why) => Fail(why)
    case Got(wall, b1) =>
    match TakeUint(b1, 4)
    case Fail(why) => Fail(why)
    case Got(counter, b2) =>
    match TakeUint(b2, 1)
    case Fail(why) => Fail(why)
    case Got(tag, b3) =>
      Widths(); UintPut(b1, 4); UintPut(b2, 1);
      Got((Hlc(wall, counter), tag), b3)
  }

  function TakeHeader(b: Bytes): Parsed<Header> {
    match TakeDomain(b, RecordDomain())
    case Fail(why) => Fail(why)
    case Got(_, b1) =>
    match TakeId(b1)
    case Fail(why) => Fail(why)
    case Got(channel, b2) =>
    match TakeId(b2)
    case Fail(why) => Fail(why)
    case Got(author, b3) =>
    match TakeId(b3)
    case Fail(why) => Fail(why)
    case Got(device, b4) =>
    match TakeStamp(b4)
    case Fail(why) => Fail(why)
    case Got(stamp, b5) => Got(Header(channel, author, device, stamp.0, stamp.1), b5)
  }

  function TakeAttachments(b: Bytes, n: nat): Parsed<seq<Attachment>> {
    if n == 0 then Got([], b)
    else
      match TakeAttachment(b)
      case Fail(why) => Fail(why)
      case Got(a, rest) =>
        match TakeAttachments(rest, n - 1)
        case Fail(why) => Fail(why)
        case Got(more, rest') => Got([a] + more, rest')
  }

  function TakeAttachment(b: Bytes): Parsed<Attachment> {
    match TakeId(b)
    case Fail(why) => Fail(why)
    case Got(manifest, b1) =>
    match TakeUint(b1, 8)
    case Fail(why) => Fail(why)
    case Got(byteLen, b2) =>
    match TakeText(b2)
    case Fail(why) => Fail(why)
    case Got(mediaType, b3) =>
    match TakeText(b3)
    case Fail(why) => Fail(why)
    case Got(name, b4) =>
      Widths(); UintPut(b1, 8);
      Got(Attachment(manifest, byteLen, mediaType, name), b4)
  }

  function TakeMessage(b: Bytes): Parsed<Body> {
    match TakeText(b)
    case Fail(why) => Fail(why)
    case Got(text, b1) =>
    match TakeOptionalId(b1)
    case Fail(why) => Fail(why)
    case Got(replyTo, b2) =>
    match TakeUint(b2, 8)
    case Fail(why) => Fail(why)
    case Got(n, b3) =>
    match TakeAttachments(b3, n)
    case Fail(why) => Fail(why)
    case Got(attachments, b4) => Got(Message(text, replyTo, attachments), b4)
  }

  function TakeReaction(b: Bytes): Parsed<Body> {
    match TakeId(b)
    case Fail(why) => Fail(why)
    case Got(target, b1) =>
    match TakeText(b1)
    case Fail(why) => Fail(why)
    case Got(key, b2) =>
    match TakeBool(b2)
    case Fail(why) => Fail(why)
    case Got(remove, b3) => Got(Reaction(target, key, remove), b3)
  }

  /// The body of a kind this build knows.
  function TakeBody(tag: byte, b: Bytes): Parsed<Body>
    requires Known(tag)
  {
    if tag == 0x01 then TakeMessage(b)
    else if tag == 0x40 then TakeReaction(b)
    else
      match TakeId(b)
      case Fail(why) => Fail(why)
      case Got(target, b1) =>
        if tag == 0x03 then Got(Tombstone(target), b1)
        else if tag == 0x02 then
          match TakeText(b1)
          case Fail(why) => Fail(why)
          case Got(text, b2) => Got(Edit(target, text), b2)
        else if tag == 0x41 then
          match TakeBool(b1)
          case Fail(why) => Fail(why)
          case Got(remove, b2) => Got(Pin(target, remove), b2)
        else
          match TakeId(b1)
          case Fail(why) => Fail(why)
          case Got(head, b2) => Got(Redaction(target, head), b2)
  }

  /// What follows the header of a kind this build knows: a body, a signature, nothing more.
  function TakeKnown(tag: byte, b: Bytes): Result<(Body, Signature), CodecError>
    requires Known(tag)
  {
    match TakeBody(tag, b)
    case Fail(why) => Err(Malformed(why))
    case Got(body, tail) =>
      if |tail| < 64 then Err(Malformed(UnexpectedEnd))
      else if |tail| > 64 then Err(Malformed(NotCanonical))
      else Ok((body, tail))
  }

  /// And of one it does not: a record is delivered whole and its signature is its
  /// last 64 bytes, so what lies before them can be kept unread.
  function TakeUnknown(tag: byte, b: Bytes): Result<(Body, Signature), CodecError> {
    if ClassOf(tag).ReservedClass? then Err(UnknownKind(tag))
    else if |b| < 64 then Err(Malformed(UnexpectedEnd))
    else Ok((Unknown(tag, b[..|b| - 64]), b[|b| - 64..]))
  }

  /// Reads a record. `isKey` is which identifiers are verifying keys, `hash`
  /// what an identifier is.
  function Decode(b: Bytes, isKey: Id -> bool, hash: Bytes -> Id): Result<Record, CodecError> {
    match TakeHeader(b)
    case Fail(why) => Err(Malformed(why))
    case Got(h, rest) =>
      if !isKey(h.author) || !isKey(h.device) then Err(BadKey)
      else
        match if Known(h.tag) then TakeKnown(h.tag, rest) else TakeUnknown(h.tag, rest)
        case Err(why) => Err(why)
        case Ok(said) => Ok(Record(hash(b), h.channel, h.author, h.device, h.hlc, said.0, said.1))
  }

  // ------------------------------------------------------------------------
  // Values that can be written
  // ------------------------------------------------------------------------

  predicate TextsAreUtf8(body: Body) {
    match body
    case Message(text, _, attachments) =>
      IsUtf8(text)
      && forall i :: 0 <= i < |attachments| ==> IsUtf8(attachments[i].mediaType) && IsUtf8(attachments[i].name)
    case Edit(_, text) => IsUtf8(text)
    case Reaction(_, key, _) => IsUtf8(key)
    case _ => true
  }

  /// What the types of the source guarantee of any record it holds.
  predicate Valid(r: Record, isKey: Id -> bool) {
    && isKey(r.author) && isKey(r.device)
    && TextsAreUtf8(r.body)
    && (r.body.Message? ==> |r.body.attachments| <= U64_MAX)
    && (r.body.Unknown? ==> !Known(r.body.kind) && !ClassOf(r.body.kind).ReservedClass?)
  }

  /// And that its identifier is the hash of its bytes.
  predicate WellFormed(r: Record, isKey: Id -> bool, hash: Bytes -> Id) {
    Valid(r, isKey) && r.id == hash(Canonical(r))
  }

  // ------------------------------------------------------------------------
  // What was put is taken back
  // ------------------------------------------------------------------------

  lemma {:induction false} StampTaken(hlc: Hlc, tag: byte, tail: Bytes)
    ensures TakeStamp(PutStamp(hlc, tag, tail)) == Got((hlc, tag), tail)
  {
    hide PutI64, TakeI64, PutUint, TakeUint, Pow256;
    Widths();
    I64Taken(hlc.wall, PutUint(hlc.counter, 4, PutUint(tag, 1, tail)));
    UintTaken(hlc.counter, 4, PutUint(tag, 1, tail));
    UintTaken(tag, 1, tail);
  }

  lemma {:induction false} HeaderTaken(h: Header, tail: Bytes)
    ensures TakeHeader(PutHeader(h, tail)) == Got(h, tail)
  {
    hide RecordDomain, PutBytes, TakeBytes, PutId, TakeId, PutStamp, TakeStamp;
    var b4 := PutStamp(h.hlc, h.tag, tail);
    var b3 := PutId(h.device, b4);
    var b2 := PutId(h.author, b3);
    var b1 := PutId(h.channel, b2);
    BytesTaken(RecordDomain(), b1);
    IdTaken(h.channel, b2);
    IdTaken(h.author, b3);
    IdTaken(h.device, b4);
    StampTaken(h.hlc, h.tag, tail);
  }

  lemma {:induction false} AttachmentsTaken(attachments: seq<Attachment>, tail: Bytes)
    requires forall i :: 0 <= i < |attachments| ==> IsUtf8(attachments[i].mediaType) && IsUtf8(attachments[i].name)
    ensures TakeAttachments(PutAttachments(attachments, tail), |attachments|) == Got(attachments, tail)
  {
    hide PutBytes, TakeBytes, PutId, TakeId, PutUint, TakeUint, Pow256, IsUtf8;
    if attachments != [] {
      Widths();
      var a := attachments[0];
      var b4 := PutAttachments(attachments[1..], tail);
      var b3 := PutBytes(a.name, b4);
      var b2 := PutBytes(a.mediaType, b3);
      var b1 := PutUint(a.byteLen, 8, b2);
      AttachmentsTaken(attachments[1..], tail);
      BytesTaken(a.name, b4);
      BytesTaken(a.mediaType, b3);
      UintTaken(a.byteLen, 8, b2);
      IdTaken(a.manifest, b1);
      assert attachments == [a] + attachments[1..];
    }
  }

  lemma {:induction false} BodyTaken(body: Body, tail: Bytes)
    requires !body.Unknown? && TextsAreUtf8(body) && (body.Message? ==> |body.attachments| <= U64_MAX)
    ensures TakeBody(body.Tag(), PutBody(body, tail)) == Got(body, tail)
  {
    hide PutBytes, TakeBytes, PutId, TakeId, PutUint, TakeUint, Pow256, IsUtf8, PutBool, TakeBool,
         PutOptionalId, TakeOptionalId, TakeAttachments, PutAttachments;
    Widths();
    match body {
      case Message(text, replyTo, attachments) =>
        var b3 := PutAttachments(attachments, tail);
        var b2 := PutUint(|attachments|, 8, b3);
        BytesTaken(text, PutOptionalId(replyTo, b2));
        OptionalIdTaken(replyTo, b2);
        UintTaken(|attachments|, 8, b3);
        AttachmentsTaken(attachments, tail);
      case Edit(target, text) =>
        IdTaken(target, PutBytes(text, tail));
        BytesTaken(text, tail);
      case Tombstone(target) =>
        IdTaken(target, tail);
      case Reaction(target, key, remove) =>
        IdTaken(target, PutBytes(key, PutBool(remove, tail)));
        BytesTaken(key, PutBool(remove, tail));
        BoolTaken(remove, tail);
      case Pin(target, remove) =>
        IdTaken(target, PutBool(remove, tail));
        BoolTaken(remove, tail);
      case Redaction(target, head) =>
        IdTaken(target, PutId(head, tail));
        IdTaken(head, tail);
    }
  }

  /// Decoding a record's canonical bytes gives the record back, whatever its
  /// kind and whether or not this build knows it.
  lemma {:induction false} RecordsRoundTrip(r: Record, isKey: Id -> bool, hash: Bytes -> Id)
    requires WellFormed(r, isKey, hash)
    ensures Decode(Canonical(r), isKey, hash) == Ok(r)
  {
    hide TakeHeader, PutHeader, TakeBody;
    var rest := PutBody(r.body, r.signature);
    HeaderTaken(HeaderOf(r), rest);
    if r.body.Unknown? {
      assert rest[..|rest| - 64] == r.body.bytes && rest[|rest| - 64..] == r.signature;
    } else {
      BodyTaken(r.body, r.signature);
    }
  }

  // ------------------------------------------------------------------------
  // Whatever is taken was put
  // ------------------------------------------------------------------------

  lemma {:induction false} StampPut(b: Bytes)
    requires TakeStamp(b).Got?
    ensures var Got(stamp, rest) := TakeStamp(b); b == PutStamp(stamp.0, stamp.1, rest)
  {
    hide PutI64, TakeI64, PutUint, TakeUint, Pow256;
    I64Put(b);
    var b1 := TakeI64(b).rest;
    UintPut(b1, 4);
    UintPut(TakeUint(b1, 4).rest, 1);
  }

  lemma {:induction false} HeaderPut(b: Bytes)
    requires TakeHeader(b).Got?
    ensures b == PutHeader(TakeHeader(b).value, TakeHeader(b).rest)
  {
    hide RecordDomain, PutBytes, TakeBytes, PutId, TakeId, PutStamp, TakeStamp;
    BytesPut(b);
    var b1 := TakeBytes(b).rest;
    IdPut(b1);
    var b2 := TakeId(b1).rest;
    IdPut(b2);
    var b3 := TakeId(b2).rest;
    IdPut(b3);
    StampPut(TakeId(b3).rest);
  }

  lemma {:induction false} AttachmentsPut(b: Bytes, n: nat)
    requires TakeAttachments(b, n).Got?
    decreases n
    ensures var Got(attachments, rest) := TakeAttachments(b, n);
            && |attachments| == n && b == PutAttachments(attachments, rest)
            && (forall i :: 0 <= i < n ==> IsUtf8(attachments[i].mediaType) && IsUtf8(attachments[i].name))
  {
    hide PutBytes, TakeBytes, PutId, TakeId, PutUint, TakeUint, Pow256, IsUtf8;
    if n > 0 {
      IdPut(b);
      var b1 := TakeId(b).rest;
      UintPut(b1, 8);
      var b2 := TakeUint(b1, 8).rest;
      BytesPut(b2);
      var b3 := TakeBytes(b2).rest;
      BytesPut(b3);
      var Got(a, rest) := TakeAttachment(b);
      AttachmentsPut(rest, n - 1);
      var more := TakeAttachments(rest, n - 1).value;
      assert ([a] + more)[1..] == more;
    }
  }

  lemma {:induction false} BodyPut(tag: byte, b: Bytes)
    requires Known(tag) && TakeBody(tag, b).Got?
    ensures var Got(body, rest) := TakeBody(tag, b);
            && b == PutBody(body, rest) && body.Tag() == tag && !body.Unknown? && TextsAreUtf8(body)
            && (body.Message? ==> |body.attachments| <= U64_MAX)
  {
    hide PutBytes, TakeBytes, PutId, TakeId, PutUint, TakeUint, Pow256, IsUtf8, PutBool, TakeBool,
         PutOptionalId, TakeOptionalId, TakeAttachments, PutAttachments;
    if tag == 0x01 {
      BytesPut(b);
      var b1 := TakeBytes(b).rest;
      OptionalIdPut(b1);
      var b2 := TakeOptionalId(b1).rest;
      UintPut(b2, 8);
      Widths();
      AttachmentsPut(TakeUint(b2, 8).rest, TakeUint(b2, 8).value);
    } else {
      IdPut(b);
      var b1 := TakeId(b).rest;
      if tag == 0x02 {
        BytesPut(b1);
      } else if tag == 0x40 {
        BytesPut(b1);
        BoolPut(TakeBytes(b1).rest);
      } else if tag == 0x41 {
        BoolPut(b1);
      } else if tag == 0x80 {
        IdPut(b1);
      }
    }
  }

  /// Re-encoding any accepted bytes gives those bytes: the encoding is the only
  /// one of its record, kept even for a kind this build does not know.
  lemma {:induction false} AcceptedBytesReEmit(b: Bytes, isKey: Id -> bool, hash: Bytes -> Id)
    requires Decode(b, isKey, hash).Ok?
    ensures var r := Decode(b, isKey, hash).value;
            Canonical(r) == b && WellFormed(r, isKey, hash)
            && r.Class() == ClassOf(TakeHeader(b).value.tag) && !r.Class().ReservedClass?
  {
    hide TakeHeader, PutHeader, TakeBody;
    HeaderPut(b);
    var Got(h, rest) := TakeHeader(b);
    if Known(h.tag) {
      BodyPut(h.tag, rest);
    } else {
      assert rest[..|rest| - 64] + rest[|rest| - 64..] == rest;
    }
  }

  /// A record of a kind not known, kept as it came: what precedes the signature is
  /// its body.
  predicate KeptUnread(out: Result<Record, CodecError>, h: Header, rest: Bytes) {
    out.Ok? && |rest| >= 64 && HeaderOf(out.value) == h && out.value.body.Unknown?
    && out.value.body.bytes == rest[..|rest| - 64] && out.value.signature == rest[|rest| - 64..]
  }

  /// What decoding makes of a header and whatever follows it: a refusal where an
  /// identity is no key or the number is of no class, and where it is of a class
  /// but of no kind this build knows, the bytes kept as they are.
  lemma {:induction false} HeadersDecide(h: Header, rest: Bytes, isKey: Id -> bool, hash: Bytes -> Id)
    ensures Decode(PutHeader(h, rest), isKey, hash) == Err(BadKey) <==> !isKey(h.author) || !isKey(h.device)
    ensures isKey(h.author) && isKey(h.device) ==>
              var out := Decode(PutHeader(h, rest), isKey, hash);
              if h.tag == 0 || h.tag >= 192 then out == Err(UnknownKind(h.tag))
              else if h.tag in {0x01, 0x02, 0x03, 0x40, 0x41, 0x80} then out.Ok? ==> !out.value.body.Unknown?
              else if |rest| < 64 then out == Err(Malformed(UnexpectedEnd))
              else KeptUnread(out, h, rest)
  {
    hide PutHeader, TakeHeader, TakeBody;
    HeaderTaken(h, rest);
    if Known(h.tag) && TakeBody(h.tag, rest).Got? {
      BodyPut(h.tag, rest);
    }
  }

  // ------------------------------------------------------------------------
  // Identity
  // ------------------------------------------------------------------------

  /// No two of these records, different in their bytes, share a hash. Over every
  /// byte string no hash does this; over the records at hand it is what the
  /// design counts on.
  ghost predicate NoCollision(rs: seq<Record>, hash: Bytes -> Id) {
    forall r, s :: r in rs && s in rs && hash(Canonical(r)) == hash(Canonical(s)) ==> Canonical(r) == Canonical(s)
  }

  /// Where none collide, an identifier names one record: what the merge assumes
  /// of the records it is given.
  lemma {:induction false} IdentifiersNameRecords(rs: seq<Record>, isKey: Id -> bool, hash: Bytes -> Id)
    requires forall i :: 0 <= i < |rs| ==> WellFormed(rs[i], isKey, hash)
    requires NoCollision(rs, hash)
    ensures FaithfulIds(rs)
  {
    hide Canonical, Valid, Decode;
    forall i, j | 0 <= i < |rs| && 0 <= j < |rs| && rs[i].id == rs[j].id ensures rs[i] == rs[j] {
      RecordsRoundTrip(rs[i], isKey, hash);
      RecordsRoundTrip(rs[j], isKey, hash);
      assert rs[i] in rs && rs[j] in rs && hash(Canonical(rs[i])) == hash(Canonical(rs[j]));
    }
  }

  /// And only there: two well-formed records that collide share an identifier.
  lemma {:induction false} CollisionsShareAnIdentifier(r: Record, s: Record, isKey: Id -> bool, hash: Bytes -> Id)
    requires WellFormed(r, isKey, hash) && WellFormed(s, isKey, hash)
    ensures FaithfulIds([r, s]) <==> NoCollision([r, s], hash)
  {
    hide Canonical, Valid, Decode;
    var rs := [r, s];
    if NoCollision(rs, hash) {
      IdentifiersNameRecords(rs, isKey, hash);
    } else {
      assert r in rs && s in rs && rs[0] == r && rs[1] == s;
    }
  }
}
