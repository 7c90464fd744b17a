/**
  Channel and category structure as application-entry payloads
  (crates/kols-core/src/channel.rs): one encoding of each, and the bounds the
  governance log holds them to.
 */
module ChannelCodec {
  import opened Prelude
  import opened Records
  import opened Wire

  datatype Subject = OfChannel(id: Id) | OfCategory(id: Id)

  datatype ChannelKind = TextChannel | VoiceChannel | StageChannel

  datatype Privacy = Public | Private

  datatype ChannelChange =
    | Rename(name: Text)
    | Recategorise(category: Option<Id>)
    | SetTopic(topic: Text)
    | SetSlowmode(seconds: u32)
    | Archive
    | Delete
    | SetPosition(position: u32)

  datatype CategoryChange = RenameCategory(name: Text) | PlaceCategory(position: u32) | DeleteCategory

  datatype EntryBody =
    | Definition(name: Text, category: Option<Id>, kind: ChannelKind, privacy: Privacy, topic: Text, slowmode: u32)
    | Update(change: ChannelChange)
    | Membership(add: bool, identity: Id)
    | Rotation(commitRef: Id, reason: Text)
    | CategoryDefinition(name: Text, position: u32)
    | CategoryUpdate(categoryChange: CategoryChange)
  {
    function Tag(): byte {
      match this
      case Definition(_, _, _, _, _, _) => 1
      case Update(_) => 2
      case Membership(_, _) => 3
      case Rotation(_, _) => 4
      case CategoryDefinition(_, _) => 5
      case CategoryUpdate(_) => 6
    }

    /// The string this body travels under in an application entry.
    function Kind(): string {
      KindOf(Tag())
    }

    predicate AboutCategory() {
      CategoryDefinition? || CategoryUpdate?
    }
  }

  function KindOf(tag: byte): string {
    if tag == 1 then "channel-definition"
    else if tag == 2 then "channel-update"
    else if tag == 3 then "channel-membership"
    else if tag == 4 then "channel-rotation"
    else if tag == 5 then "category-definition"
    else "category-update"
  }

  datatype Entry = Entry(subject: Subject, body: EntryBody)

  datatype EntryError = Malformed(why: DecodeError) | KindMismatch(declared: string, encoded: string)

  function EntryDomain(): (domain: Bytes)
    ensures |domain| == 30
  {
    Ascii("intranet.chat-channel-entry.v1")
  }

  // ------------------------------------------------------------------------
  // Writing
  // ------------------------------------------------------------------------

  function PutDefinition(body: EntryBody, tail: Bytes): Bytes
    requires body.Definition?
  {
    PutBytes(body.name, PutOptionalId(body.category,
      PutUint(match body.kind case TextChannel => 1 case VoiceChannel => 2 case StageChannel => 3, 1,
      PutUint(match body.privacy case Public => 1 case Private => 2, 1,
      PutBytes(body.topic, PutUint(body.slowmode, 4, tail))))))
  }

  function PutChange(change: ChannelChange, tail: Bytes): Bytes {
    match change
    case Rename(name) => PutUint(1, 1, PutBytes(name, tail))
    case Recategorise(category) => PutUint(2, 1, PutOptionalId(category, tail))
    case SetTopic(topic) => PutUint(3, 1, PutBytes(topic, tail))
    case SetSlowmode(seconds) => PutUint(4, 1, PutUint(seconds, 4, tail))
    case Archive => PutUint(5, 1, tail)
    case Delete => PutUint(6, 1, tail)
    case SetPosition(position) => PutUint(7, 1, PutUint(position, 4, tail))
  }

  function PutCategoryChange(change: CategoryChange, tail: Bytes): Bytes {
    match change
    case RenameCategory(name) => PutUint(1, 1, PutBytes(name, tail))
    case PlaceCategory(position) => PutUint(2, 1, PutUint(position, 4, tail))
    case DeleteCategory => PutUint(3, 1, tail)
  }

  function PutBody(body: EntryBody, tail: Bytes): Bytes {
    match body
    case Definition(_, _, _, _, _, _) => PutDefinition(body, tail)
    case Update(change) => PutChange(change, tail)
    case Membership(add, identity) => PutUint(if add then 1 else 2, 1, PutId(identity, tail))
    case Rotation(commitRef, reason) => PutId(commitRef, PutBytes(reason, tail))
    case CategoryDefinition(name, position) => PutBytes(name, PutUint(position, 4, tail))
    case CategoryUpdate(change) => PutCategoryChange(change, tail)
  }

  function Encode(e: Entry): Bytes {
    PutBytes(EntryDomain(), PutId(e.subject.id, PutUint(e.body.Tag(), 1, PutBody(e.body, []))))
  }

  // ------------------------------------------------------------------------
  // Reading
  // ------------------------------------------------------------------------

  /// A field with so many meanings, numbered from one.
  function TakeOneOf(b: Bytes, n: nat): (p: Parsed<nat>)
    ensures p.Got? ==> 1 <= p.value <= n
  {
    match TakeUint(b, 1)
    case Fail(why) => Fail(why)
    case Got(v, rest) => if 1 <= v <= n then Got(v, rest) else Fail(UnknownField(v))
  }

  function TakeU32(b: Bytes): Parsed<u32> {
    match TakeUint(b, 4)
    case Fail(why) => Fail(why)
    case Got(v, rest) =>
      Widths(); UintPut(b, 4);
      Got(v, rest)
  }

  function TakeDefinition(b: Bytes): Parsed<EntryBody> {
    match TakeText(b)
    case Fail(why) => Fail(why)
    case Got(name, b1) =>
    match TakeOptionalId(b1)
    case Fail(why) => Fail(why)
    case Got(category, b2) =>
    match TakeOneOf(b2, 3)
    case Fail(why) => Fail(why)
    case Got(kind, b3) =>
    match TakeOneOf(b3, 2)
    case Fail(why) => Fail(why)
    case Got(privacy, b4) =>
    match TakeText(b4)
    case Fail(why) => Fail(why)
    case Got(topic, b5) =>
    match TakeU32(b5)
    case Fail(why) => Fail(why)
    case Got(slowmode, b6) =>
      Got(Definition(name, category,
                     if kind == 1 then TextChannel else if kind == 2 then VoiceChannel else StageChannel,
                     if privacy == 1 then Public else Private, topic, slowmode), b6)
  }

  function TakeChange(b: Bytes): Parsed<ChannelChange> {
    match TakeOneOf(b, 7)
    case Fail(why) => Fail(why)
    case Got(tag, b1) =>
      if tag == 1 then
        match TakeText(b1)
        case Fail(why) => Fail(why)
        case Got(name, b2) => Got(Rename(name), b2)
      else if tag == 2 then
        match TakeOptionalId(b1)
        case Fail(why) => Fail(why)
        case Got(category, b2) => Got(Recategorise(category), b2)
      else if tag == 3 then
        match TakeText(b1)
        case Fail(why) => Fail(why)
        case Got(topic, b2) => Got(SetTopic(topic), b2)
      else if tag == 5 then Got(Archive, b1)
      else if tag == 6 then Got(Delete, b1)
      else
        match TakeU32(b1)
        case Fail(why) => Fail(why)
        case Got(v, b2) => Got(if tag == 4 then SetSlowmode(v) else SetPosition(v), b2)
  }

  function TakeCategoryChange(b: Bytes): Parsed<CategoryChange> {
    match TakeOneOf(b, 3)
    case Fail(why) => Fail(why)
    case Got(tag, b1) =>
      if tag == 1 then
        match TakeText(b1)
        case Fail(why) => Fail(why)
        case Got(name, b2) => Got(RenameCategory(name), b2)
      else if tag == 2 then
        match TakeU32(b1)
        case Fail(why) => Fail(why)
        case Got(position, b2) => Got(PlaceCategory(position), b2)
      else Got(DeleteCategory, b1)
  }

  function TakeMembership(b: Bytes, isKey: Id -> bool): Parsed<EntryBody> {
    match TakeOneOf(b, 2)
    case Fail(why) => Fail(why)
    case Got(action, b1) =>
    match TakeId(b1)
    case Fail(why) => Fail(why)
    case Got(identity, b2) =>
      if isKey(identity) then Got(Membership(action == 1, identity), b2) else Fail(UnknownField(0))
  }

  function TakeRotation(b: Bytes): Parsed<EntryBody> {
    match TakeId(b)
    case Fail(why) => Fail(why)
    case Got(commitRef, b1) =>
    match TakeText(b1)
    case Fail(why) => Fail(why)
    case Got(reason, b2) => Got(Rotation(commitRef, reason), b2)
  }

  function TakeCategoryDefinition(b: Bytes): Parsed<EntryBody> {
    match TakeText(b)
    case Fail(why) => Fail(why)
    case Got(name, b1) =>
    match TakeU32(b1)
    case Fail(why) => Fail(why)
    case Got(position, b2) => Got(CategoryDefinition(name, position), b2)
  }

  function TakeBody(tag: nat, b: Bytes, isKey: Id -> bool): Parsed<EntryBody> {
    if tag == 1 then TakeDefinition(b)
    else if tag == 2 then
      match TakeChange(b)
      case Fail(why) => Fail(why)
      case Got(change, rest) => Got(Update(change), rest)
    else if tag == 3 then TakeMembership(b, isKey)
    else if tag == 4 then TakeRotation(b)
    else if tag == 5 then TakeCategoryDefinition(b)
    else if tag == 6 then
      match TakeCategoryChange(b)
      case Fail(why) => Fail(why)
      case Got(change, rest) => Got(CategoryUpdate(change), rest)
    else Fail(UnknownField(tag))
  }

  /// Reads a payload. What the id names follows from the discriminant.
  function DecodePayload(b: Bytes, isKey: Id -> bool): Result<Entry, DecodeError> {
    match TakeDomain(b, EntryDomain())
    case Fail(why) => Err(why)
    case Got(_, b1) =>
    match TakeId(b1)
    case Fail(why) => Err(why)
    case Got(id, b2) =>
    match TakeUint(b2, 1)
    case Fail(why) => Err(why)
    case Got(tag, b3) =>
    match TakeBody(tag, b3, isKey)
    case Fail(why) => Err(why)
    case Got(body, b4) =>
      if b4 != [] then Err(NotCanonical)
      else Ok(Entry(if tag == 5 || tag == 6 then OfCategory(id) else OfChannel(id), body))
  }

  /// And under the kind it travelled as.
  function Decode(kind: string, b: Bytes, isKey: Id -> bool): Result<Entry, EntryError> {
    match DecodePayload(b, isKey)
    case Err(why) => Err(Malformed(why))
    case Ok(e) => if e.body.Kind() == kind then Ok(e) else Err(KindMismatch(kind, e.body.Kind()))
  }

  // ------------------------------------------------------------------------
  // What can be written
  // ------------------------------------------------------------------------

  /// What the source's types say of any body: text is UTF-8, an identity a key.
  predicate Typed(body: EntryBody, isKey: Id -> bool) {
    match body
    case Definition(name, _, _, _, topic, _) => IsUtf8(name) && IsUtf8(topic)
    case Update(change) =>
      (match change
       case Rename(name) => IsUtf8(name)
       case SetTopic(topic) => IsUtf8(topic)
       case _ => true)
    case Membership(_, identity) => isKey(identity)
    case Rotation(_, reason) => IsUtf8(reason)
    case CategoryDefinition(name, _) => IsUtf8(name)
    case CategoryUpdate(change) => change.RenameCategory? ==> IsUtf8(change.name)
  }

  /// Whether the subject is of the kind the body is about. Only a value built in
  /// memory can fail this.
  predicate Agrees(e: Entry) {
    e.subject.OfCategory? <==> e.body.AboutCategory()
  }

  lemma {:induction false} U32Taken(v: u32, tail: Bytes)
    ensures TakeU32(PutUint(v, 4, tail)) == Got(v, tail)
  {
    hide PutUint, TakeUint, Pow256;
    Widths();
    UintTaken(v, 4, tail);
  }

  lemma {:induction false} OneOfTaken(v: nat, n: nat, tail: Bytes)
    requires 1 <= v <= n < 256
    ensures TakeOneOf(PutUint(v, 1, tail), n) == Got(v, tail)
  {
    hide PutUint, TakeUint, Pow256;
    Widths();
    UintTaken(v, 1, tail);
  }

  lemma {:induction false} DefinitionTaken(body: EntryBody, tail: Bytes)
    requires body.Definition? && IsUtf8(body.name) && IsUtf8(body.topic)
    ensures TakeDefinition(PutDefinition(body, tail)) == Got(body, tail)
  {
    hide PutBytes, TakeBytes, PutUint, TakeOneOf, TakeU32, PutOptionalId, TakeOptionalId, IsUtf8;
    var b5 := PutUint(body.slowmode, 4, tail);
    var b4 := PutBytes(body.topic, b5);
    var privacy := match body.privacy case Public => 1 case Private => 2;
    var b3 := PutUint(privacy, 1, b4);
    var kind := match body.kind case TextChannel => 1 case VoiceChannel => 2 case StageChannel => 3;
    var b2 := PutUint(kind, 1, b3);
    BytesTaken(body.name, PutOptionalId(body.category, b2));
    OptionalIdTaken(body.category, b2);
    OneOfTaken(kind, 3, b3);
    OneOfTaken(privacy, 2, b4);
    BytesTaken(body.topic, b5);
    U32Taken(body.slowmode, tail);
  }

  lemma {:induction false} ChangeTaken(change: ChannelChange, tail: Bytes)
    requires (change.Rename? ==> IsUtf8(change.name)) && (change.SetTopic? ==> IsUtf8(change.topic))
    ensures TakeChange(PutChange(change, tail)) == Got(change, tail)
  {
    hide PutBytes, TakeBytes, PutUint, TakeOneOf, TakeU32, PutOptionalId, TakeOptionalId, IsUtf8;
    match change {
      case Rename(name) => OneOfTaken(1, 7, PutBytes(name, tail)); BytesTaken(name, tail);
      case Recategorise(category) => OneOfTaken(2, 7, PutOptionalId(category, tail)); OptionalIdTaken(category, tail);
      case SetTopic(topic) => OneOfTaken(3, 7, PutBytes(topic, tail)); BytesTaken(topic, tail);
      case SetSlowmode(seconds) => OneOfTaken(4, 7, PutUint(seconds, 4, tail)); U32Taken(seconds, tail);
      case Archive => OneOfTaken(5, 7, tail);
      case Delete => OneOfTaken(6, 7, tail);
      case SetPosition(position) => OneOfTaken(7, 7, PutUint(position, 4, tail)); U32Taken(position, tail);
    }
  }

  lemma {:induction false} CategoryChangeTaken(change: CategoryChange, tail: Bytes)
    requires change.RenameCategory? ==> IsUtf8(change.name)
    ensures TakeCategoryChange(PutCategoryChange(change, tail)) == Got(change, tail)
  {
    hide PutBytes, TakeBytes, PutUint, TakeOneOf, TakeU32, IsUtf8;
    match change {
      case RenameCategory(name) => OneOfTaken(1, 3, PutBytes(name, tail)); BytesTaken(name, tail);
      case PlaceCategory(position) => OneOfTaken(2, 3, PutUint(position, 4, tail)); U32Taken(position, tail);
      case DeleteCategory => OneOfTaken(3, 3, tail);
    }
  }

  lemma {:induction false} BodyTaken(body: EntryBody, tail: Bytes, isKey: Id -> bool)
    requires Typed(body, isKey)
    ensures TakeBody(body.Tag(), PutBody(body, tail), isKey) == Got(body, tail)
  {
    hide PutBytes, TakeBytes, PutUint, TakeOneOf, TakeU32, PutId, TakeId, IsUtf8, PutDefinition, TakeDefinition,
         PutChange, TakeChange, PutCategoryChange, TakeCategoryChange;
    match body {
      case Definition(_, _, _, _, _, _) => DefinitionTaken(body, tail);
      case Update(change) => ChangeTaken(change, tail);
      case Membership(add, identity) =>
        OneOfTaken(if add then 1 else 2, 2, PutId(identity, tail));
        IdTaken(identity, tail);
      case Rotation(commitRef, reason) =>
        IdTaken(commitRef, PutBytes(reason, tail));
        BytesTaken(reason, tail);
      case CategoryDefinition(name, position) =>
        BytesTaken(name, PutUint(position, 4, tail));
        U32Taken(position, tail);
      case CategoryUpdate(change) => CategoryChangeTaken(change, tail);
    }
  }

  /// An entry's payload decodes to it exactly when its subject is of the kind
  /// its body is about; otherwise to the same body about the other kind.
  lemma {:induction false} EntriesRoundTrip(e: Entry, isKey: Id -> bool)
    requires Typed(e.body, isKey)
    ensures Decode(e.body.Kind(), Encode(e), isKey).Ok?
    ensures Decode(e.body.Kind(), Encode(e), isKey).value.body == e.body
    ensures Decode(e.body.Kind(), Encode(e), isKey) == Ok(e) <==> Agrees(e)
  {
    hide PutBytes, TakeBytes, PutUint, TakeUint, Pow256, PutId, TakeId, PutBody, TakeBody, Typed, EntryDomain, KindOf;
    Widths();
    var b3 := PutBody(e.body, []);
    var b2 := PutUint(e.body.Tag(), 1, b3);
    BytesTaken(EntryDomain(), PutId(e.subject.id, b2));
    IdTaken(e.subject.id, b2);
    UintTaken(e.body.Tag(), 1, b3);
    BodyTaken(e.body, [], isKey);
  }

  // ------------------------------------------------------------------------
  // Whatever is taken was put
  // ------------------------------------------------------------------------

  lemma {:induction false} OneOfPut(b: Bytes, n: nat)
    requires TakeOneOf(b, n).Got?
    ensures b == PutUint(TakeOneOf(b, n).value, 1, TakeOneOf(b, n).rest)
  {
    hide PutUint, TakeUint, Pow256;
    UintPut(b, 1);
  }

  lemma {:induction false} U32Put(b: Bytes)
    requires TakeU32(b).Got?
    ensures b == PutUint(TakeU32(b).value, 4, TakeU32(b).rest)
  {
    hide PutUint, TakeUint, Pow256;
    UintPut(b, 4);
  }

  lemma {:induction false} DefinitionPut(b: Bytes)
    requires TakeDefinition(b).Got?
    ensures var Got(body, rest) := TakeDefinition(b);
            body.Definition? && b == PutDefinition(body, rest) && IsUtf8(body.name) && IsUtf8(body.topic)
  {
    hide PutBytes, TakeBytes, PutUint, TakeOneOf, TakeU32, PutOptionalId, TakeOptionalId, IsUtf8;
    BytesPut(b);
    var b1 := TakeBytes(b).rest;
    OptionalIdPut(b1);
    var b2 := TakeOptionalId(b1).rest;
    OneOfPut(b2, 3);
    var b3 := TakeOneOf(b2, 3).rest;
    OneOfPut(b3, 2);
    var b4 := TakeOneOf(b3, 2).rest;
    BytesPut(b4);
    U32Put(TakeBytes(b4).rest);
  }

  lemma {:induction false} ChangePut(b: Bytes)
    requires TakeChange(b).Got?
    ensures var Got(change, rest) := TakeChange(b);
            && b == PutChange(change, rest)
            && (change.Rename? ==> IsUtf8(change.name)) && (change.SetTopic? ==> IsUtf8(change.topic))
  {
    hide PutBytes, TakeBytes, PutUint, TakeOneOf, TakeU32, PutOptionalId, TakeOptionalId, IsUtf8;
    OneOfPut(b, 7);
    var Got(tag, b1) := TakeOneOf(b, 7);
    if tag == 1 || tag == 3 {
      BytesPut(b1);
    } else if tag == 2 {
      OptionalIdPut(b1);
    } else if tag == 4 || tag == 7 {
      U32Put(b1);
    }
  }

  lemma {:induction false} CategoryChangePut(b: Bytes)
    requires TakeCategoryChange(b).Got?
    ensures var Got(change, rest) := TakeCategoryChange(b);
            b == PutCategoryChange(change, rest) && (change.RenameCategory? ==> IsUtf8(change.name))
  {
    hide PutBytes, TakeBytes, PutUint, TakeOneOf, TakeU32, IsUtf8;
    OneOfPut(b, 3);
    var Got(tag, b1) := TakeOneOf(b, 3);
    if tag == 1 {
      BytesPut(b1);
    } else if tag == 2 {
      U32Put(b1);
    }
  }

  lemma {:induction false} BodyPut(tag: nat, b: Bytes, isKey: Id -> bool)
    requires TakeBody(tag, b, isKey).Got?
    ensures var Got(body, rest) := TakeBody(tag, b, isKey);
            b == PutBody(body, rest) && body.Tag() == tag && Typed(body, isKey)
  {
    hide PutBytes, TakeBytes, PutUint, TakeOneOf, TakeU32, PutId, TakeId, IsUtf8, PutDefinition, TakeDefinition,
         PutChange, TakeChange, PutCategoryChange, TakeCategoryChange;
    if tag == 1 {
      DefinitionPut(b);
    } else if tag == 2 {
      ChangePut(b);
    } else if tag == 3 {
      OneOfPut(b, 2);
      IdPut(TakeOneOf(b, 2).rest);
    } else if tag == 4 {
      IdPut(b);
      BytesPut(TakeId(b).rest);
    } else if tag == 5 {
      BytesPut(b);
      U32Put(TakeBytes(b).rest);
    } else {
      CategoryChangePut(b);
    }
  }

  /// An accepted payload is the one encoding of the entry it decodes to, and
  /// that entry agrees with itself.
  lemma {:induction false} AcceptedEntriesReEmit(b: Bytes, isKey: Id -> bool)
    requires DecodePayload(b, isKey).Ok?
    ensures var e := DecodePayload(b, isKey).value; Encode(e) == b && Agrees(e) && Typed(e.body, isKey)
  {
    hide PutBytes, TakeBytes, PutUint, TakeUint, Pow256, PutId, TakeId, PutBody, TakeBody, Typed, EntryDomain;
    BytesPut(b);
    var b1 := TakeBytes(b).rest;
    IdPut(b1);
    var b2 := TakeId(b1).rest;
    UintPut(b2, 1);
    var Got(tag, b3) := TakeUint(b2, 1);
    BodyPut(tag, b3, isKey);
  }

  // ------------------------------------------------------------------------
  // Bounds
  // ------------------------------------------------------------------------

  const MAX_NAME_BYTES := 256
  const MAX_TOPIC_BYTES := 1024
  const MAX_REASON_BYTES := 256

  /// Bounds no network can loosen, and the agreement of subject and body.
  predicate WithinEntryBounds(e: Entry) {
    Agrees(e)
    && match e.body
       case Definition(name, _, _, _, topic, _) => |name| <= MAX_NAME_BYTES && |topic| <= MAX_TOPIC_BYTES
       case Update(change) =>
         (match change
          case Rename(name) => |name| <= MAX_NAME_BYTES
          case SetTopic(topic) => |topic| <= MAX_TOPIC_BYTES
          case _ => true)
       case Membership(_, _) => true
       case Rotation(_, reason) => |reason| <= MAX_REASON_BYTES
       case CategoryDefinition(name, _) => |name| <= MAX_NAME_BYTES
       case CategoryUpdate(change) => change.RenameCategory? ==> |change.name| <= MAX_NAME_BYTES
  }
}
