/**
  Records, their clock readings and the total order they merge in
  (crates/kols-core/src/{hlc,cursor,record}.rs), and the ordered collection a
  channel view keeps them in.
 */
module Records {
  import opened Prelude

  /** A hybrid logical clock reading: wall milliseconds, then a counter. */
  datatype Hlc = Hlc(wall: i64, counter: u32) {
    predicate Less(other: Hlc) {
      wall < other.wall || (wall == other.wall && counter < other.counter)
    }
  }

  /** A position in the merged order: the reading, then the record's id. */
  datatype Cursor = Cursor(hlc: Hlc, id: Id) {
    predicate Less(other: Cursor) {
      hlc.Less(other.hlc) || (hlc == other.hlc && id < other.id)
    }
  }

  /** Text, as its UTF-8 bytes. Its length is what every byte bound measures. */
  type Text = s: Bytes | |s| <= 0xFFFF_FFFF_FFFF_FFFF

  datatype Attachment = Attachment(manifest: Id, byteLen: u64, mediaType: Text, name: Text)

  datatype Body =
    | Message(text: Text, replyTo: Option<Id>, attachments: seq<Attachment>)
    | Edit(target: Id, text: Text)
    | Tombstone(target: Id)
    | Reaction(target: Id, key: Text, remove: bool)
    | Pin(target: Id, remove: bool)
    | Redaction(target: Id, governanceHead: Id)
    | Unknown(kind: byte, bytes: Bytes)
  {
    function Tag(): byte {
      match this
      case Message(_, _, _) => 0x01
      case Edit(_, _) => 0x02
      case Tombstone(_) => 0x03
      case Reaction(_, _, _) => 0x40
      case Pin(_, _) => 0x41
      case Redaction(_, _) => 0x80
      case Unknown(kind, _) => kind
    }

    function Class(): RecordClass {
      ClassOf(Tag())
    }

    /// The message this body acts on, if it acts on one.
    function Target(): Option<Id> {
      match this
      case Message(_, _, _) => None
      case Unknown(_, _) => None
      case _ => Some(target)
    }
  }

  datatype RecordClass = MessageClass | ReactionClass | ControlClass | ReservedClass

  /// The rate class of a discriminant, read off its numeric range alone.
  function ClassOf(tag: byte): RecordClass {
    if 0x01 <= tag <= 0x3F then MessageClass
    else if 0x40 <= tag <= 0x7F then ReactionClass
    else if 0x80 <= tag <= 0xBF then ControlClass
    else ReservedClass
  }

  type Signature = s: Bytes | |s| == 64 witness Zeros(64)

  const BLANK_SIGNATURE: Signature := Zeros(64)

  /** One signed contribution. `id` is the hash of its canonical bytes, carried
      beside the fields it commits to (`RecordCodec.WellFormed` ties the two). */
  datatype Record = Record(
    id: Id, channel: Id, author: Id, device: Id, hlc: Hlc, body: Body, signature: Signature)
  {
    function Position(): Cursor {
      Cursor(hlc, id)
    }

    function Class(): RecordClass {
      body.Class()
    }
  }

  /** Why a record was not applied. */
  datatype Rejection =
    | BadSignature
    | WrongChannel
    | NotAMember
    | NotPermitted
    | NotAModerator
    | TooLarge
    | TooFast
    | Slowmode

  const MAX_REACTION_KEY_BYTES := 64
  const MAX_ATTACHMENT_NAME_BYTES := 255

  /// Field bounds of one record. An unknown kind is held to none of them.
  predicate WithinBounds(body: Body, maxBody: nat) {
    match body
    case Message(text, _, attachments) =>
      |text| <= maxBody
      && forall i :: 0 <= i < |attachments| ==> |attachments[i].name| <= MAX_ATTACHMENT_NAME_BYTES
    case Edit(_, text) => |text| <= maxBody
    case Reaction(_, key, _) => |key| <= MAX_REACTION_KEY_BYTES
    case _ => true
  }

  // ------------------------------------------------------------------------
  // Collections of records
  // ------------------------------------------------------------------------

  /// Strictly ascending by `(hlc, id)`: the canonical order.
  predicate Ascending(rs: seq<Record>) {
    forall i, j :: 0 <= i < j < |rs| ==> rs[i].Position().Less(rs[j].Position())
  }

  /// What an injective hash gives: an id names one record.
  predicate FaithfulIds(rs: seq<Record>) {
    forall i, j :: 0 <= i < |rs| && 0 <= j < |rs| && rs[i].id == rs[j].id ==> rs[i] == rs[j]
  }

  /// The last element is the one every other precedes, and the elements before
  /// it are the remaining ones.
  lemma {:induction false} FrontHoldsTheRest(a: seq<Record>)
    requires Ascending(a) && a != []
    ensures forall r :: r in a[..|a| - 1] <==> r in a && r != a[|a| - 1]
    ensures forall r :: r in a ==> r == a[|a| - 1] || r.Position().Less(a[|a| - 1].Position())
  {
    var front, last := a[..|a| - 1], a[|a| - 1];
    assert a == front + [last];
    forall r | r in front ensures r.Position().Less(last.Position()) {
      var i :| 0 <= i < |front| && front[i] == r;
      assert a[i] == r;
    }
  }

  /// An ascending collection holds each element once, so the elements fix it.
  lemma {:induction false} AscendingIsUnique(a: seq<Record>, b: seq<Record>)
    requires Ascending(a) && Ascending(b)
    requires forall r :: r in a <==> r in b
    ensures a == b
  {
    assert |a| == 0 || a[0] in a;
    assert |b| == 0 || b[0] in b;
    if a != [] {
      FrontHoldsTheRest(a);
      FrontHoldsTheRest(b);
      var x, y := a[|a| - 1], b[|b| - 1];
      assert x in a && y in b;
      assert x == y;
      var af, bf := a[..|a| - 1], b[..|b| - 1];
      forall r ensures r in af <==> r in bf {
        assert r in a <==> r in b;
      }
      AscendingIsUnique(af, bf);
      assert a == af + [x] && b == bf + [x];
    }
  }

  lemma {:induction false} FilterAscending(rs: seq<Record>, p: Record -> bool)
    requires Ascending(rs)
    ensures Ascending(Filter(rs, p))
  {
    if rs != [] {
      var front := rs[..|rs| - 1];
      FilterAscending(front, p);
      FilterMembers(front, p);
      forall i | 0 <= i < |Filter(front, p)|
        ensures Filter(front, p)[i].Position().Less(rs[|rs| - 1].Position())
      {
        assert Filter(front, p)[i] in front;
      }
    }
  }

  lemma {:induction false} FilterFaithful(rs: seq<Record>, p: Record -> bool)
    requires FaithfulIds(rs)
    ensures FaithfulIds(Filter(rs, p))
  {
    FilterMembers(rs, p);
    var f := Filter(rs, p);
    forall i, j | 0 <= i < |f| && 0 <= j < |f| && f[i].id == f[j].id
      ensures f[i] == f[j]
    {
      assert f[i] in rs && f[j] in rs;
    }
  }

  /// Inserting into a collection keyed and ordered by cursor: a record at a
  /// cursor already present replaces the one there.
  function Insert(rs: seq<Record>, r: Record): (s: seq<Record>)
    requires Ascending(rs)
    ensures Ascending(s)
    ensures forall x :: x in s <==> x == r || (x in rs && x.Position() != r.Position())
  {
    if rs == [] then [r]
    else
      var front, last := rs[..|rs| - 1], rs[|rs| - 1];
      assert rs == front + [last];
      if last.Position().Less(r.Position()) then rs + [r]
      else if last.Position() == r.Position() then
        front + [r]
      else
        Insert(front, r) + [last]
  }

  /// Inserting a whole list, in the order given.
  function InsertAll(rs: seq<Record>, more: seq<Record>): (s: seq<Record>)
    requires Ascending(rs)
    ensures Ascending(s)
  {
    if more == [] then rs
    else Insert(InsertAll(rs, more[..|more| - 1]), more[|more| - 1])
  }

  lemma {:induction false} InsertAllConcat(rs: seq<Record>, a: seq<Record>, b: seq<Record>)
    requires Ascending(rs)
    ensures InsertAll(InsertAll(rs, a), b) == InsertAll(rs, a + b)
  {
    if b == [] {
      assert a + b == a;
    } else {
      InsertAllConcat(rs, a, b[..|b| - 1]);
      assert (a + b)[..|a + b| - 1] == a + b[..|b| - 1];
    }
  }

  /// With ids that name records, nothing is ever displaced: the collection
  /// holds exactly what was ever put into it.
  lemma {:induction false} InsertAllMembers(rs: seq<Record>, more: seq<Record>)
    requires Ascending(rs) && FaithfulIds(rs + more)
    ensures forall x :: x in InsertAll(rs, more) <==> x in rs || x in more
  {
    if more != [] {
      var front, last := more[..|more| - 1], more[|more| - 1];
      assert more == front + [last];
      forall i, j | 0 <= i < |rs + front| && 0 <= j < |rs + front|
                    && (rs + front)[i].id == (rs + front)[j].id
        ensures (rs + front)[i] == (rs + front)[j]
      {
        assert (rs + front)[i] == (rs + more)[i] && (rs + front)[j] == (rs + more)[j];
      }
      InsertAllMembers(rs, front);
      forall x | x in InsertAll(rs, front) && x.Position() == last.Position()
        ensures x == last
      {
        assert x in rs + more && last in rs + more;
      }
    }
  }

  /// The collection depends only on which records went in: not on their order,
  /// not on repeats, not on how they were batched.
  lemma {:induction false} InsertAllIsASetUnion(rs: seq<Record>, a: seq<Record>, b: seq<Record>)
    requires Ascending(rs) && FaithfulIds(rs + a)
    requires forall x :: x in a <==> x in b
    ensures InsertAll(rs, a) == InsertAll(rs, b)
  {
    FaithfulOver(rs + a, rs + b);
    InsertAllMembers(rs, a);
    InsertAllMembers(rs, b);
    AscendingIsUnique(InsertAll(rs, a), InsertAll(rs, b));
  }

  lemma {:induction false} FaithfulOver(a: seq<Record>, b: seq<Record>)
    requires FaithfulIds(a)
    requires forall x :: x in b ==> x in a
    ensures FaithfulIds(b)
  {
    forall i, j | 0 <= i < |b| && 0 <= j < |b| && b[i].id == b[j].id
      ensures b[i] == b[j]
    {
      assert b[i] in a && b[j] in a;
    }
  }

  /// In an ascending collection whose ids name records, ids are distinct.
  lemma {:induction false} DistinctIds(rs: seq<Record>, i: nat, j: nat)
    requires Ascending(rs) && FaithfulIds(rs)
    requires i < |rs| && j < |rs| && rs[i].id == rs[j].id
    ensures i == j
  {
    assert rs[i] == rs[j];
  }

  lemma {:induction false} NoRepeatedId(rs: seq<Record>, i: nat, j: nat)
    requires Ascending(rs) && FaithfulIds(rs) && i < j < |rs|
    ensures rs[i].id != rs[j].id
  {
    if rs[i].id == rs[j].id {
      DistinctIds(rs, i, j);
    }
  }
}
