/**
  A reader's place in a channel (crates/kols-core/src/cursor.rs): the order
  records merge in, and the token an interface carries a place as.
 */
module Cursors {
  import opened Prelude
  import opened Records
  import opened Wire

  /// Places are totally ordered, readings first: nothing ties but itself.
  lemma {:induction false} CursorsAreTotallyOrdered(a: Cursor, b: Cursor, c: Cursor)
    ensures !a.Less(a)
    ensures a == b || (a.Less(b) <==> !b.Less(a))
    ensures a.Less(b) && b.Less(c) ==> a.Less(c)
    ensures a.hlc.Less(b.hlc) ==> a.Less(b)
    ensures a.hlc.wall < b.hlc.wall ==> a.Less(b)
    ensures a.hlc.wall == b.hlc.wall && a.hlc.counter < b.hlc.counter ==> a.Less(b)
    ensures a.hlc == b.hlc && a.id < b.id ==> a.Less(b)
  {
  }

  /// The forty-four bytes of a token, before they are put in hexadecimal.
  function ToToken(c: Cursor): Bytes {
    PutI64(c.hlc.wall, PutUint(c.hlc.counter, 4, PutId(c.id, [])))
  }

  function FromToken(raw: Bytes): Option<Cursor> {
    if |raw| != 44 then None
    else
      match TakeI64(raw[..8])
      case Fail(_) => None
      case Got(wall, _) =>
        Widths();
        BytesRoundTrip(raw[8..12]);
        BytesRoundTrip(raw[12..]);
        Some(Cursor(Hlc(wall, FromBigEndian(raw[8..12])), FromBigEndian(raw[12..])))
  }

  /// A place's token reads back as that place, its reading's sign included.
  lemma {:induction false} TokensRoundTrip(c: Cursor)
    ensures |ToToken(c)| == 44 && FromToken(ToToken(c)) == Some(c)
  {
    hide BigEndian, FromBigEndian, Pow256, TakeUint;
    Widths();
    var raw := ToToken(c);
    I64Taken(c.hlc.wall, []);
    assert raw[..8] == PutI64(c.hlc.wall, []);
    assert raw[8..12] == BigEndian(c.hlc.counter, 4);
    assert raw[12..] == BigEndian(c.id, 32);
    NumbersRoundTrip(c.hlc.counter, 4);
    NumbersRoundTrip(c.id, 32);
  }

  /// And a token that reads at all is the only one of its place.
  lemma {:induction false} TokensAreUnique(raw: Bytes)
    ensures FromToken(raw).Some? <==> |raw| == 44
    ensures FromToken(raw).Some? ==> ToToken(FromToken(raw).value) == raw
  {
    hide BigEndian, FromBigEndian, Pow256;
    if |raw| == 44 {
      Widths();
      I64Put(raw[..8]);
      BytesRoundTrip(raw[8..12]);
      BytesRoundTrip(raw[12..]);
      assert raw == raw[..8] + raw[8..12] + raw[12..];
    }
  }
}
