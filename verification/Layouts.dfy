/**
  The formats as a stranger would write them down: the fields one after another,
  each in its own bytes. The codecs build the same bytes from the end forward.
 */
module Layouts {
  import opened Prelude
  import opened Records
  import opened Wire
  import ChannelCodec
  import Cursors
  import RecordCodec
  import Segments

  function U32(n: u32): Bytes {
    BigEndian(n, 4)
  }

  function U64(n: u64): Bytes {
    BigEndian(n, 8)
  }

  /// Two's complement.
  function Signed(n: i64): Bytes {
    BigEndian(if n >= 0 then n else 0x1_0000_0000_0000_0000 + n, 8)
  }

  function Address(id: Id): Bytes {
    BigEndian(id, 32)
  }

  /// Behind its length.
  function Lengthed(s: Bytes): Bytes {
    BigEndian(|s|, 8) + s
  }

  function Flag(v: bool): Bytes {
    if v then [0x01] else [0x00]
  }

  function Perhaps(id: Option<Id>): Bytes {
    match id
    case None => [0x00]
    case Some(id) => [0x01] + Address(id)
  }

  // ------------------------------------------------------------------------
  // Records
  // ------------------------------------------------------------------------

  function Files(attachments: seq<Attachment>): Bytes {
    if attachments == [] then []
    else
      var a := attachments[0];
      Address(a.manifest) + U64(a.byteLen) + Lengthed(a.mediaType) + Lengthed(a.name) + Files(attachments[1..])
  }

  /// The discriminant and what follows it, up to the signature.
  function RecordBody(body: Body): Bytes {
    match body
    case Message(text, replyTo, attachments) =>
      [0x01] + Lengthed(text) + Perhaps(replyTo) + BigEndian(|attachments|, 8) + Files(attachments)
    case Edit(target, text) => [0x02] + Address(target) + Lengthed(text)
    case Tombstone(target) => [0x03] + Address(target)
    case Reaction(target, key, remove) => [0x40] + Address(target) + Lengthed(key) + Flag(remove)
    case Pin(target, remove) => [0x41] + Address(target) + Flag(remove)
    case Redaction(target, head) => [0x80] + Address(target) + Address(head)
    case Unknown(kind, bytes) => [kind] + bytes
  }

  function RecordBytes(r: Record): Bytes {
    Lengthed(Ascii("intranet.chat-record.v1"))
    + Address(r.channel) + Address(r.author) + Address(r.device)
    + Signed(r.hlc.wall) + U32(r.hlc.counter)
    + RecordBody(r.body) + r.signature
  }

  lemma {:induction false} OneByte(n: byte)
    ensures BigEndian(n, 1) == [n]
  {
    assert BigEndian(n / 256, 0) == [];
  }

  lemma {:induction false} Joined(a: Bytes, b: Bytes, tail: Bytes)
    ensures (a + b) + tail == a + (b + tail)
  {
  }

  lemma {:induction false} LengthedPut(s: Bytes, tail: Bytes)
    ensures PutBytes(s, tail) == Lengthed(s) + tail
  {
    Joined(BigEndian(|s|, 8), s, tail);
  }

  lemma {:induction false} FlagPut(v: bool, tail: Bytes)
    ensures PutBool(v, tail) == Flag(v) + tail
  {
    OneByte(0);
    OneByte(1);
  }

  lemma {:induction false} PerhapsPut(id: Option<Id>, tail: Bytes)
    ensures PutOptionalId(id, tail) == Perhaps(id) + tail
  {
    FlagPut(id.Some?, []);
    match id {
      case None => FlagPut(false, tail);
      case Some(id) =>
        FlagPut(true, PutId(id, tail));
        Joined([0x01], Address(id), tail);
    }
  }

  lemma {:induction false} FilesPut(attachments: seq<Attachment>, tail: Bytes)
    ensures RecordCodec.PutAttachments(attachments, tail) == Files(attachments) + tail
  {
    hide BigEndian, PutBytes, Lengthed;
    if attachments != [] {
      var a, rest := attachments[0], attachments[1..];
      FilesPut(rest, tail);
      LengthedPut(a.name, Files(rest) + tail);
      LengthedPut(a.mediaType, Lengthed(a.name) + (Files(rest) + tail));
      FourParts(Address(a.manifest), U64(a.byteLen), Lengthed(a.mediaType), Lengthed(a.name), Files(rest) + tail);
      Joined(Address(a.manifest) + U64(a.byteLen) + Lengthed(a.mediaType) + Lengthed(a.name), Files(rest), tail);
    }
  }

  lemma {:induction false} ThreeParts(a: Bytes, b: Bytes, c: Bytes, tail: Bytes)
    ensures a + (b + (c + tail)) == a + b + c + tail
  {
  }

  lemma {:induction false} FourParts(a: Bytes, b: Bytes, c: Bytes, d: Bytes, tail: Bytes)
    ensures a + (b + (c + (d + tail))) == a + b + c + d + tail
  {
  }

  lemma {:induction false} MessagePut(body: Body, tail: Bytes)
    requires body.Message?
    ensures [0x01] + RecordCodec.PutBody(body, tail) == RecordBody(body) + tail
  {
    hide BigEndian, PutBytes, PutOptionalId, RecordCodec.PutAttachments, Lengthed, Files, Perhaps;
    var files, count := Files(body.attachments), BigEndian(|body.attachments|, 8);
    FilesPut(body.attachments, tail);
    PerhapsPut(body.replyTo, count + (files + tail));
    LengthedPut(body.text, Perhaps(body.replyTo) + (count + (files + tail)));
    FourParts([0x01], Lengthed(body.text), Perhaps(body.replyTo), count, files + tail);
    Joined([0x01] + Lengthed(body.text) + Perhaps(body.replyTo) + count, files, tail);
  }

  lemma {:induction false} BodyPut(body: Body, tail: Bytes)
    ensures PutUint(body.Tag(), 1, RecordCodec.PutBody(body, tail)) == RecordBody(body) + tail
  {
    hide BigEndian, PutBytes, PutBool, PutOptionalId, RecordCodec.PutAttachments, Lengthed, Files, Perhaps, Flag;
    OneByte(body.Tag());
    match body {
      case Message(text, replyTo, attachments) =>
        MessagePut(body, tail);
      case Edit(target, text) =>
        LengthedPut(text, tail);
        ThreeParts([0x02], Address(target), Lengthed(text), tail);
      case Tombstone(target) =>
        Joined([0x03], Address(target), tail);
      case Reaction(target, key, remove) =>
        FlagPut(remove, tail);
        LengthedPut(key, Flag(remove) + tail);
        FourParts([0x40], Address(target), Lengthed(key), Flag(remove), tail);
      case Pin(target, remove) =>
        FlagPut(remove, tail);
        ThreeParts([0x41], Address(target), Flag(remove), tail);
      case Redaction(target, head) =>
        ThreeParts([0x80], Address(target), Address(head), tail);
      case Unknown(kind, bytes) =>
        Joined([kind], bytes, tail);
    }
  }

  /// A record's canonical bytes are its fields one after another, under the tag of
  /// the format and ending in the signature.
  lemma {:induction false} RecordsAreSpelled(r: Record)
    ensures RecordCodec.Canonical(r) == RecordBytes(r)
  {
    hide BigEndian, PutBytes, RecordCodec.PutBody, RecordBody, Lengthed, Ascii;
    var body := RecordBody(r.body) + r.signature;
    BodyPut(r.body, r.signature);
    var wall, counter := Signed(r.hlc.wall), U32(r.hlc.counter);
    var domain := Lengthed(Ascii("intranet.chat-record.v1"));
    LengthedPut(RecordCodec.RecordDomain(),
                Address(r.channel) + (Address(r.author) + (Address(r.device) + (wall + (counter + body)))));
    FourParts(domain, Address(r.channel), Address(r.author), Address(r.device), wall + (counter + body));
    FourParts(domain + Address(r.channel) + Address(r.author) + Address(r.device), wall, counter,
              RecordBody(r.body), r.signature);
  }

  // ------------------------------------------------------------------------
  // Segments
  // ------------------------------------------------------------------------

  /// Each record behind its length, to the end.
  function RecordList(records: seq<Record>): Bytes {
    if records == [] then [] else Lengthed(RecordBytes(records[0])) + RecordList(records[1..])
  }

  function SegmentBytes(s: Segments.Segment): Bytes {
    Lengthed(Ascii("intranet.chat-segment.v1"))
    + Address(s.channel) + Address(s.author) + U64(s.sequence) + Perhaps(s.previous)
    + RecordList(s.records)
  }

  lemma {:induction false} RecordListPut(records: seq<Record>)
    ensures Segments.Frames(records) == RecordList(records)
  {
    hide BigEndian, PutBytes, Lengthed, RecordBytes, RecordCodec.Canonical;
    if records != [] {
      RecordListPut(records[1..]);
      RecordsAreSpelled(records[0]);
      LengthedPut(RecordBytes(records[0]), RecordList(records[1..]));
    }
  }

  lemma {:induction false} SegmentsAreSpelled(s: Segments.Segment)
    ensures Segments.SegmentBytes(s) == SegmentBytes(s)
  {
    hide BigEndian, PutBytes, PutOptionalId, Lengthed, Perhaps, Ascii, RecordList, Segments.Frames;
    var list := RecordList(s.records);
    RecordListPut(s.records);
    PerhapsPut(s.previous, list);
    var domain := Lengthed(Ascii("intranet.chat-segment.v1"));
    LengthedPut(Segments.SegmentDomain(),
                Address(s.channel) + (Address(s.author) + (U64(s.sequence) + (Perhaps(s.previous) + list))));
    FourParts(domain, Address(s.channel), Address(s.author), U64(s.sequence), Perhaps(s.previous) + list);
    Joined(domain + Address(s.channel) + Address(s.author) + U64(s.sequence), Perhaps(s.previous), list);
  }

  // ------------------------------------------------------------------------
  // Tokens
  // ------------------------------------------------------------------------

  lemma {:induction false} TokensAreSpelled(c: Cursor)
    ensures Cursors.ToToken(c) == Signed(c.hlc.wall) + U32(c.hlc.counter) + Address(c.id)
  {
    hide BigEndian;
    FourParts([], Signed(c.hlc.wall), U32(c.hlc.counter), Address(c.id), []);
  }

  // ------------------------------------------------------------------------
  // Channel entries
  // ------------------------------------------------------------------------

  function ChangeBytes(change: ChannelCodec.ChannelChange): Bytes {
    match change
    case Rename(name) => [1] + Lengthed(name)
    case Recategorise(category) => [2] + Perhaps(category)
    case SetTopic(topic) => [3] + Lengthed(topic)
    case SetSlowmode(seconds) => [4] + U32(seconds)
    case Archive => [5]
    case Delete => [6]
    case SetPosition(position) => [7] + U32(position)
  }

  function CategoryChangeBytes(change: ChannelCodec.CategoryChange): Bytes {
    match change
    case RenameCategory(name) => [1] + Lengthed(name)
    case PlaceCategory(position) => [2] + U32(position)
    case DeleteCategory => [3]
  }

  function KindByte(kind: ChannelCodec.ChannelKind): Bytes {
    match kind
    case TextChannel => [1]
    case VoiceChannel => [2]
    case StageChannel => [3]
  }

  function PrivacyByte(privacy: ChannelCodec.Privacy): Bytes {
    match privacy
    case Public => [1]
    case Private => [2]
  }

  /// The discriminant and what follows it.
  function EntryBody(body: ChannelCodec.EntryBody): Bytes {
    match body
    case Definition(name, category, kind, privacy, topic, slowmode) =>
      [1] + Lengthed(name) + Perhaps(category) + KindByte(kind) + PrivacyByte(privacy) + Lengthed(topic) + U32(slowmode)
    case Update(change) => [2] + ChangeBytes(change)
    case Membership(add, identity) => [3] + (if add then [1] else [2]) + Address(identity)
    case Rotation(commitRef, reason) => [4] + Address(commitRef) + Lengthed(reason)
    case CategoryDefinition(name, position) => [5] + Lengthed(name) + U32(position)
    case CategoryUpdate(change) => [6] + CategoryChangeBytes(change)
  }

  /// What an entry's payload travels under.
  function KindName(body: ChannelCodec.EntryBody): string {
    match body
    case Definition(_, _, _, _, _, _) => "channel-definition"
    case Update(_) => "channel-update"
    case Membership(_, _) => "channel-membership"
    case Rotation(_, _) => "channel-rotation"
    case CategoryDefinition(_, _) => "category-definition"
    case CategoryUpdate(_) => "category-update"
  }

  lemma {:induction false} ChangePut(change: ChannelCodec.ChannelChange)
    ensures ChannelCodec.PutChange(change, []) == ChangeBytes(change)
  {
    hide BigEndian, PutBytes, PutOptionalId, Lengthed, Perhaps;
    forall n: byte ensures BigEndian(n, 1) == [n] {
      OneByte(n);
    }
    match change {
      case Rename(name) => LengthedPut(name, []);
      case Recategorise(category) => PerhapsPut(category, []);
      case SetTopic(topic) => LengthedPut(topic, []);
      case _ =>
    }
  }

  lemma {:induction false} CategoryChangePut(change: ChannelCodec.CategoryChange)
    ensures ChannelCodec.PutCategoryChange(change, []) == CategoryChangeBytes(change)
  {
    hide BigEndian, PutBytes, Lengthed;
    forall n: byte ensures BigEndian(n, 1) == [n] {
      OneByte(n);
    }
    if change.RenameCategory? {
      LengthedPut(change.name, []);
    }
  }

  lemma {:induction false} DefinitionPut(body: ChannelCodec.EntryBody)
    requires body.Definition?
    ensures [1] + ChannelCodec.PutDefinition(body, []) == EntryBody(body)
  {
    hide BigEndian, PutBytes, PutOptionalId, Lengthed, Perhaps;
    forall n: byte ensures BigEndian(n, 1) == [n] {
      OneByte(n);
    }
    var end := U32(body.slowmode);
    assert end + [] == end;
    LengthedPut(body.topic, end);
    var topic := Lengthed(body.topic) + end;
    PerhapsPut(body.category, KindByte(body.kind) + (PrivacyByte(body.privacy) + topic));
    LengthedPut(body.name, Perhaps(body.category) + (KindByte(body.kind) + (PrivacyByte(body.privacy) + topic)));
    FourParts([1], Lengthed(body.name), Perhaps(body.category), KindByte(body.kind), PrivacyByte(body.privacy) + topic);
    FourParts([1] + Lengthed(body.name) + Perhaps(body.category) + KindByte(body.kind), PrivacyByte(body.privacy),
              Lengthed(body.topic), end, []);
  }

  lemma {:induction false} EntryBodyPut(body: ChannelCodec.EntryBody)
    ensures PutUint(body.Tag(), 1, ChannelCodec.PutBody(body, [])) == EntryBody(body)
  {
    hide BigEndian, PutBytes, Lengthed, ChannelCodec.PutDefinition, ChannelCodec.PutChange,
         ChannelCodec.PutCategoryChange, ChangeBytes, CategoryChangeBytes;
    forall n: byte ensures BigEndian(n, 1) == [n] {
      OneByte(n);
    }
    match body {
      case Definition(_, _, _, _, _, _) => DefinitionPut(body);
      case Update(change) => ChangePut(change);
      case Membership(add, identity) => Joined([3], if add then [1] else [2], Address(identity));
      case Rotation(commitRef, reason) =>
        LengthedPut(reason, []);
        Joined([4], Address(commitRef), Lengthed(reason));
      case CategoryDefinition(name, position) =>
        LengthedPut(name, U32(position));
        assert U32(position) + [] == U32(position);
        Joined([5], Lengthed(name), U32(position));
      case CategoryUpdate(change) => CategoryChangePut(change);
    }
  }

  /// And so is an entry's payload, under the name of its kind.
  lemma {:induction false} EntriesAreSpelled(e: ChannelCodec.Entry)
    ensures ChannelCodec.Encode(e)
            == Lengthed(Ascii("intranet.chat-channel-entry.v1")) + Address(e.subject.id) + EntryBody(e.body)
    ensures e.body.Kind() == KindName(e.body)
  {
    hide BigEndian, PutBytes, Lengthed, ChannelCodec.PutBody, EntryBody, Ascii;
    EntryBodyPut(e.body);
    LengthedPut(ChannelCodec.EntryDomain(), Address(e.subject.id) + EntryBody(e.body));
    Joined(Lengthed(ChannelCodec.EntryDomain()), Address(e.subject.id), EntryBody(e.body));
  }
}
