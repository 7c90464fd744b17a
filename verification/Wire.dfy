/**
  The canonical encoding's primitives: fixed-width big-endian integers,
  length-prefixed bytes and text, options and booleans of one exact form.

  Every encoder here takes the bytes that follow, and every decoder returns the
  bytes it left. Each has two lemmas: what was put is taken back, and whatever
  is taken was put, so an accepted encoding is the only one of its value.
 */
module Wire {
  import opened Prelude

  datatype DecodeError = UnexpectedEnd | WrongDomain | NotCanonical | NotUtf8 | UnknownField(value: nat)

  datatype Parsed<+T> = Fail(why: DecodeError) | Got(value: T, rest: Bytes)

  // ------------------------------------------------------------------------
  // Integers
  // ------------------------------------------------------------------------

  function Pow256(w: nat): nat {
    if w == 0 then 1 else 256 * Pow256(w - 1)
  }

  lemma {:induction false} Widths()
    ensures Pow256(1) == 0x100 && Pow256(4) == U32_MAX + 1 && Pow256(8) == U64_MAX + 1 && Pow256(32) == ID_SPACE
  {
    assert Pow256(4) == 0x1_0000_0000;
    assert Pow256(8) == 0x1_0000_0000_0000_0000;
    assert Pow256(16) == 0x1_0000000000000000_0000000000000000;
    assert Pow256(24) == 0x1_0000000000000000_0000000000000000_0000000000000000;
  }

  /// The last `w` base-256 digits of `n`, most significant first.
  function BigEndian(n: nat, w: nat): (b: Bytes)
    ensures |b| == w
  {
    if w == 0 then [] else BigEndian(n / 256, w - 1) + [n % 256]
  }

  function FromBigEndian(b: Bytes): nat {
    if b == [] then 0 else FromBigEndian(b[..|b| - 1]) * 256 + b[|b| - 1]
  }

  lemma {:induction false} NumbersRoundTrip(n: nat, w: nat)
    requires n < Pow256(w)
    ensures FromBigEndian(BigEndian(n, w)) == n
  {
    if w > 0 {
      NumbersRoundTrip(n / 256, w - 1);
      assert BigEndian(n, w)[..w - 1] == BigEndian(n / 256, w - 1);
    }
  }

  lemma {:induction false} BytesRoundTrip(b: Bytes)
    ensures FromBigEndian(b) < Pow256(|b|)
    ensures BigEndian(FromBigEndian(b), |b|) == b
  {
    if b != [] {
      var front, last := b[..|b| - 1], b[|b| - 1];
      BytesRoundTrip(front);
      var n := FromBigEndian(front);
      assert (n * 256 + last) / 256 == n && (n * 256 + last) % 256 == last;
      assert b == front + [last];
    }
  }

  /// How byte arrays compare.
  predicate LexLess(a: Bytes, b: Bytes) {
    if b == [] then false
    else if a == [] then true
    else a[0] < b[0] || (a[0] == b[0] && LexLess(a[1..], b[1..]))
  }

  lemma {:induction false} LexLessSplitsLast(a: Bytes, x: byte, b: Bytes, y: byte)
    requires |a| == |b|
    ensures LexLess(a + [x], b + [y]) <==> LexLess(a, b) || (a == b && x < y)
  {
    if a == [] {
      assert (a + [x])[1..] == [] && (b + [y])[1..] == [];
    } else {
      LexLessSplitsLast(a[1..], x, b[1..], y);
      assert (a + [x])[1..] == a[1..] + [x] && (b + [y])[1..] == b[1..] + [y];
      assert a == [a[0]] + a[1..] && b == [b[0]] + b[1..];
    }
  }

  lemma {:induction false} LastDigitDecides(m: nat, n: nat)
    ensures m < n <==> m / 256 < n / 256 || (m / 256 == n / 256 && m % 256 < n % 256)
    ensures m / 256 == n / 256 && m % 256 == n % 256 ==> m == n
  {
  }

  /// Comparing identifiers as numbers is comparing their bytes.
  lemma {:induction false} BigEndianOrder(m: nat, n: nat, w: nat)
    requires m < Pow256(w) && n < Pow256(w)
    ensures LexLess(BigEndian(m, w), BigEndian(n, w)) <==> m < n
  {
    if w > 0 {
      hide LexLess, FromBigEndian;
      LastDigitDecides(m, n);
      BigEndianOrder(m / 256, n / 256, w - 1);
      LexLessSplitsLast(BigEndian(m / 256, w - 1), m % 256, BigEndian(n / 256, w - 1), n % 256);
      NumbersRoundTrip(m / 256, w - 1);
      NumbersRoundTrip(n / 256, w - 1);
    }
  }

  function PutUint(n: nat, w: nat, tail: Bytes): Bytes {
    BigEndian(n, w) + tail
  }

  function TakeUint(b: Bytes, w: nat): Parsed<nat> {
    if |b| < w then Fail(UnexpectedEnd) else Got(FromBigEndian(b[..w]), b[w..])
  }

  lemma {:induction false} UintTaken(n: nat, w: nat, tail: Bytes)
    requires n < Pow256(w)
    ensures TakeUint(PutUint(n, w, tail), w) == Got(n, tail)
  {
    NumbersRoundTrip(n, w);
    assert PutUint(n, w, tail)[..w] == BigEndian(n, w);
    assert PutUint(n, w, tail)[w..] == tail;
  }

  lemma {:induction false} UintPut(b: Bytes, w: nat)
    requires TakeUint(b, w).Got?
    ensures TakeUint(b, w).value < Pow256(w)
    ensures b == PutUint(TakeUint(b, w).value, w, TakeUint(b, w).rest)
  {
    BytesRoundTrip(b[..w]);
    assert b == b[..w] + b[w..];
  }

  const WRAP: int := 0x1_0000_0000_0000_0000

  /// Two's complement, eight bytes.
  function PutI64(n: i64, tail: Bytes): Bytes {
    PutUint(if n < 0 then n + WRAP else n, 8, tail)
  }

  function TakeI64(b: Bytes): Parsed<i64> {
    match TakeUint(b, 8)
    case Fail(why) => Fail(why)
    case Got(n, rest) =>
      Widths();
      UintPut(b, 8);
      Got(if n > I64_MAX then n - WRAP else n, rest)
  }

  lemma {:induction false} I64Taken(n: i64, tail: Bytes)
    ensures TakeI64(PutI64(n, tail)) == Got(n, tail)
  {
    Widths();
    UintTaken(if n < 0 then n + WRAP else n, 8, tail);
  }

  lemma {:induction false} I64Put(b: Bytes)
    requires TakeI64(b).Got?
    ensures b == PutI64(TakeI64(b).value, TakeI64(b).rest)
  {
    Widths();
    UintPut(b, 8);
  }

  // ------------------------------------------------------------------------
  // Bytes and text
  // ------------------------------------------------------------------------

  function PutBytes(s: Bytes, tail: Bytes): Bytes {
    PutUint(|s|, 8, s + tail)
  }

  function TakeBytes(b: Bytes): (p: Parsed<Bytes>)
    ensures p.Got? ==> |p.value| <= U64_MAX && |p.rest| < |b|
  {
    match TakeUint(b, 8)
    case Fail(why) => Fail(why)
    case Got(n, rest) =>
      Widths();
      UintPut(b, 8);
      if |rest| < n then Fail(UnexpectedEnd) else Got(rest[..n], rest[n..])
  }

  lemma {:induction false} BytesTaken(s: Bytes, tail: Bytes)
    requires |s| <= U64_MAX
    ensures TakeBytes(PutBytes(s, tail)) == Got(s, tail)
  {
    Widths();
    UintTaken(|s|, 8, s + tail);
    assert (s + tail)[..|s|] == s && (s + tail)[|s|..] == tail;
  }

  lemma {:induction false} BytesPut(b: Bytes)
    requires TakeBytes(b).Got?
    ensures b == PutBytes(TakeBytes(b).value, TakeBytes(b).rest)
  {
    hide BigEndian, FromBigEndian, Pow256, PutUint, TakeUint;
    UintPut(b, 8);
    var Got(n, rest) := TakeUint(b, 8);
    assert rest == rest[..n] + rest[n..];
  }

  predicate Continues(b: byte) {
    0x80 <= b <= 0xBF
  }

  /// Well-formed UTF-8: the Unicode Standard's table of byte sequences.
  predicate IsUtf8(s: Bytes) {
    if s == [] then true
    else if s[0] < 0x80 then IsUtf8(s[1..])
    else if 0xC2 <= s[0] <= 0xDF then
      |s| >= 2 && Continues(s[1]) && IsUtf8(s[2..])
    else if 0xE0 <= s[0] <= 0xEF then
      |s| >= 3 && Continues(s[1]) && (s[0] == 0xE0 ==> s[1] >= 0xA0) && (s[0] == 0xED ==> s[1] <= 0x9F)
      && Continues(s[2]) && IsUtf8(s[3..])
    else if 0xF0 <= s[0] <= 0xF4 then
      |s| >= 4 && Continues(s[1]) && (s[0] == 0xF0 ==> s[1] >= 0x90) && (s[0] == 0xF4 ==> s[1] <= 0x8F)
      && Continues(s[2]) && Continues(s[3]) && IsUtf8(s[4..])
    else false
  }

  /** A Unicode scalar value. */
  type Scalar = n: int | 0 <= n < 0xD800 || 0xE000 <= n <= 0x10FFFF

  /// Its bits, six to a continuation byte, in as few bytes as they fit.
  function Utf8Of(n: Scalar): Bytes {
    if n < 0x80 then [n]
    else if n < 0x800 then [0xC0 + n / 64, 0x80 + n % 64]
    else if n < 0x1_0000 then [0xE0 + n / 4096, 0x80 + n / 64 % 64, 0x80 + n % 64]
    else [0xF0 + n / 262144, 0x80 + n / 4096 % 64, 0x80 + n / 64 % 64, 0x80 + n % 64]
  }

  function Utf8(ns: seq<Scalar>): Bytes {
    if ns == [] then [] else Utf8Of(ns[0]) + Utf8(ns[1..])
  }

  lemma {:induction false} ScalarIsUtf8(n: Scalar, tail: Bytes)
    ensures IsUtf8(Utf8Of(n) + tail) <==> IsUtf8(tail)
  {
    var s := Utf8Of(n) + tail;
    assert s[|Utf8Of(n)|..] == tail;
  }

  lemma {:induction false} ScalarsAreUtf8(ns: seq<Scalar>)
    ensures IsUtf8(Utf8(ns))
  {
    hide Utf8Of;
    if ns != [] {
      ScalarsAreUtf8(ns[1..]);
      ScalarIsUtf8(ns[0], Utf8(ns[1..]));
    } else {
      assert Utf8(ns) == [];
    }
  }

  lemma {:induction false} SixBits(high: nat, low: nat)
    requires low < 64
    ensures (high * 64 + low) / 64 == high && (high * 64 + low) % 64 == low
  {
  }

  lemma {:induction false} Shifts(n: nat)
    ensures n / 4096 == n / 64 / 64 && n / 262144 == n / 64 / 64 / 64
  {
  }

  lemma {:induction false} Two(s: Bytes) returns (n: Scalar)
    requires |s| >= 2 && 0xC2 <= s[0] <= 0xDF && Continues(s[1])
    ensures Utf8Of(n) == s[..2] && s == Utf8Of(n) + s[2..]
  {
    var a: int, x: int := s[0] as int - 0xC0, s[1] as int - 0x80;
    SixBits(a, x);
    n := a * 64 + x;
    assert s[..2] == [s[0], s[1]] && s == s[..2] + s[2..];
  }

  lemma {:induction false} Three(s: Bytes) returns (n: Scalar)
    requires |s| >= 3 && 0xE0 <= s[0] <= 0xEF && Continues(s[1]) && Continues(s[2])
    requires (s[0] == 0xE0 ==> s[1] >= 0xA0) && (s[0] == 0xED ==> s[1] <= 0x9F)
    ensures Utf8Of(n) == s[..3] && s == Utf8Of(n) + s[3..]
  {
    var a: int, x: int, y: int := s[0] as int - 0xE0, s[1] as int - 0x80, s[2] as int - 0x80;
    SixBits(a, x);
    SixBits(a * 64 + x, y);
    n := (a * 64 + x) * 64 + y;
    Shifts(n);
    assert s[..3] == [s[0], s[1], s[2]] && s == s[..3] + s[3..];
  }

  lemma {:induction false} Four(s: Bytes) returns (n: Scalar)
    requires |s| >= 4 && 0xF0 <= s[0] <= 0xF4 && Continues(s[1]) && Continues(s[2]) && Continues(s[3])
    requires (s[0] == 0xF0 ==> s[1] >= 0x90) && (s[0] == 0xF4 ==> s[1] <= 0x8F)
    ensures Utf8Of(n) == s[..4] && s == Utf8Of(n) + s[4..]
  {
    var a: int, x: int := s[0] as int - 0xF0, s[1] as int - 0x80;
    var y: int, z: int := s[2] as int - 0x80, s[3] as int - 0x80;
    SixBits(a, x);
    SixBits(a * 64 + x, y);
    SixBits((a * 64 + x) * 64 + y, z);
    n := ((a * 64 + x) * 64 + y) * 64 + z;
    Shifts(n);
    Shifts(n / 64);
    assert s[..4] == [s[0], s[1], s[2], s[3]] && s == s[..4] + s[4..];
  }

  lemma {:induction false} ShortScalars()
    ensures forall n: Scalar :: n < 0x80 ==> Utf8Of(n) == [n]
  {
  }

  /// The scalar value well-formed text begins with.
  lemma {:induction false} FirstScalar(s: Bytes) returns (n: Scalar)
    requires s != [] && IsUtf8(s)
    ensures |Utf8Of(n)| <= |s| && s == Utf8Of(n) + s[|Utf8Of(n)|..] && IsUtf8(s[|Utf8Of(n)|..])
  {
    hide Utf8Of;
    ShortScalars();
    var lead: int := s[0];
    if lead < 0x80 {
      n := lead;
    } else if lead <= 0xDF {
      n := Two(s);
    } else if lead <= 0xEF {
      n := Three(s);
    } else {
      n := Four(s);
    }
  }

  lemma {:induction false} Utf8HasScalars(s: Bytes) returns (ns: seq<Scalar>)
    requires IsUtf8(s)
    ensures Utf8(ns) == s
  {
    hide Utf8Of;
    if s == [] {
      ns := [];
    } else {
      hide IsUtf8;
      var n := FirstScalar(s);
      ScalarTakesRoom(n);
      var rest := Utf8HasScalars(s[|Utf8Of(n)|..]);
      ns := [n] + rest;
    }
  }

  lemma {:induction false} ScalarTakesRoom(n: Scalar)
    ensures |Utf8Of(n)| >= 1
  {
  }

  /// Text is accepted exactly if it is the encoding of scalar values: nothing
  /// overlong, no surrogate, nothing past the last plane, nothing cut short.
  lemma {:induction false} Utf8IsExact(s: Bytes)
    ensures IsUtf8(s) <==> exists ns :: Utf8(ns) == s
  {
    if IsUtf8(s) {
      var ns := Utf8HasScalars(s);
    }
    forall ns | Utf8(ns) == s ensures IsUtf8(s) {
      ScalarsAreUtf8(ns);
    }
  }

  function TakeText(b: Bytes): (p: Parsed<Bytes>)
    ensures p.Got? ==> |p.value| <= U64_MAX && |p.rest| < |b|
  {
    match TakeBytes(b)
    case Fail(why) => Fail(why)
    case Got(s, rest) => if IsUtf8(s) then Got(s, rest) else Fail(NotUtf8)
  }

  /// The tag that opens every domain-separated encoding.
  function TakeDomain(b: Bytes, domain: Bytes): Parsed<()> {
    match TakeBytes(b)
    case Fail(why) => Fail(why)
    case Got(s, rest) => if s == domain then Got((), rest) else Fail(WrongDomain)
  }

  /// The low seven bits of each character: exact for the ASCII it is used on.
  function Ascii(s: string): (b: Bytes)
    ensures |b| == |s|
  {
    if s == [] then [] else [s[0] as int % 128] + Ascii(s[1..])
  }

  // ------------------------------------------------------------------------
  // Booleans and options
  // ------------------------------------------------------------------------

  function PutBool(v: bool, tail: Bytes): Bytes {
    PutUint(if v then 1 else 0, 1, tail)
  }

  function TakeBool(b: Bytes): Parsed<bool> {
    match TakeUint(b, 1)
    case Fail(why) => Fail(why)
    case Got(n, rest) => if n == 0 then Got(false, rest) else if n == 1 then Got(true, rest) else Fail(NotCanonical)
  }

  lemma {:induction false} BoolTaken(v: bool, tail: Bytes)
    ensures TakeBool(PutBool(v, tail)) == Got(v, tail)
  {
    Widths();
    UintTaken(if v then 1 else 0, 1, tail);
  }

  lemma {:induction false} BoolPut(b: Bytes)
    requires TakeBool(b).Got?
    ensures b == PutBool(TakeBool(b).value, TakeBool(b).rest)
  {
    UintPut(b, 1);
  }

  function PutId(id: Id, tail: Bytes): Bytes {
    PutUint(id, 32, tail)
  }

  function TakeId(b: Bytes): (p: Parsed<Id>)
    ensures p.Got? ==> |p.rest| < |b|
  {
    match TakeUint(b, 32)
    case Fail(why) => Fail(why)
    case Got(n, rest) =>
      Widths();
      UintPut(b, 32);
      Got(n, rest)
  }

  lemma {:induction false} IdTaken(id: Id, tail: Bytes)
    ensures TakeId(PutId(id, tail)) == Got(id, tail)
  {
    Widths();
    UintTaken(id, 32, tail);
  }

  lemma {:induction false} IdPut(b: Bytes)
    requires TakeId(b).Got?
    ensures b == PutId(TakeId(b).value, TakeId(b).rest)
  {
    UintPut(b, 32);
  }

  function PutOptionalId(o: Option<Id>, tail: Bytes): Bytes {
    match o
    case None => PutBool(false, tail)
    case Some(id) => PutBool(true, PutId(id, tail))
  }

  function TakeOptionalId(b: Bytes): Parsed<Option<Id>> {
    match TakeBool(b)
    case Fail(why) => Fail(why)
    case Got(present, rest) =>
      if !present then Got(None, rest)
      else
        match TakeId(rest)
        case Fail(why) => Fail(why)
        case Got(id, rest') => Got(Some(id), rest')
  }

  lemma {:induction false} OptionalIdTaken(o: Option<Id>, tail: Bytes)
    ensures TakeOptionalId(PutOptionalId(o, tail)) == Got(o, tail)
  {
    match o {
      case None => BoolTaken(false, tail);
      case Some(id) => BoolTaken(true, PutId(id, tail)); IdTaken(id, tail);
    }
  }

  lemma {:induction false} OptionalIdPut(b: Bytes)
    requires TakeOptionalId(b).Got?
    ensures b == PutOptionalId(TakeOptionalId(b).value, TakeOptionalId(b).rest)
  {
    BoolPut(b);
    if TakeBool(b).value {
      IdPut(TakeBool(b).rest);
    }
  }
}
