/**
  How an invite is carried (crates/kols-node/src/invite.rs): unpadded base32, by
  two loops over a 32-bit buffer that is never masked, and the forgiving way a
  pasted one is read. Section 6 of RFC 4648, less its padding.
 */
module Base32 {
  import opened Prelude
  import opened Wire

  type Quint = n: int | 0 <= n < 32

  const WORD: int := 0x1_0000_0000

  function Pow2(k: nat): (p: nat)
    ensures p > 0
  {
    if k == 0 then 1 else 2 * Pow2(k - 1)
  }

  /// The k-th symbol of the alphabet: the letters, then the digits from two.
  function Letter(k: Quint): char {
    if k < 26 then ('A' as int + k) as char else ('2' as int + (k - 26)) as char
  }

  function Upper(c: char): char {
    if 'a' <= c <= 'z' then (c as int - 32) as char else c
  }

  /// Where a character stands in the alphabet, in either case.
  function Place(c: char): Option<Quint> {
    var u := Upper(c);
    if 'A' <= u <= 'Z' then Some(u as int - 'A' as int)
    else if '2' <= u <= '7' then Some(u as int - '2' as int + 26)
    else None
  }

  function Letters(d: seq<Quint>): (s: string)
    ensures |s| == |d|
  {
    if d == [] then "" else Letters(d[..|d| - 1]) + [Letter(d[|d| - 1])]
  }

  function Places(s: string): (d: Option<seq<Quint>>)
    ensures d.Some? ==> |d.value| == |s|
  {
    if s == "" then Some([])
    else
      match Places(s[..|s| - 1])
      case None => None
      case Some(d) =>
        match Place(s[|s| - 1])
        case None => None
        case Some(k) => Some(d + [k])
  }

  // ------------------------------------------------------------------------
  // What the two directions mean
  // ------------------------------------------------------------------------

  function Value(d: seq<Quint>): nat {
    if d == [] then 0 else Value(d[..|d| - 1]) * 32 + d[|d| - 1]
  }

  function Digits(n: nat, w: nat): (d: seq<Quint>)
    ensures |d| == w
  {
    if w == 0 then [] else Digits(n / 32, w - 1) + [n % 32]
  }

  /// How many symbols so many bytes take, and how many zero bits fill the last.
  function Symbols(n: nat): nat {
    (8 * n + 4) / 5
  }

  function Padding(n: nat): (p: nat)
    ensures p < 5
  {
    5 * Symbols(n) - 8 * n
  }

  /// The bytes as one number, its bits read off five at a time.
  function Encoded(b: Bytes): string {
    Letters(Digits(FromBigEndian(b) * Pow2(Padding(|b|)), Symbols(|b|)))
  }

  /// How many whole bytes so many symbols hold, and how many bits are left.
  function Leftover(m: nat): (bits: nat)
    ensures bits < 8
  {
    5 * m % 8
  }

  /// The symbols as one number: what is left of it after whole bytes must be zero.
  function Decoded(s: string): Option<Bytes> {
    match Places(s)
    case None => None
    case Some(d) =>
      var bits := Leftover(|d|);
      if Value(d) % Pow2(bits) != 0 then None else Some(BigEndian(Value(d) / Pow2(bits), 5 * |d| / 8))
  }

  // ------------------------------------------------------------------------
  // Arithmetic
  // ------------------------------------------------------------------------

  lemma {:induction false} Recompose(n: int, x: int, a: int, y: int, q: int, b: int, r: int)
    requires n == x * a + y && x == q * b + r
    ensures n == q * (a * b) + (r * a + y)
  {
    assert n == (q * b + r) * a + y;
    assert (q * b + r) * a == q * b * a + r * a;
    assert q * b * a == q * (a * b);
  }

  lemma {:induction false} Split(n: int, q: int, a: int, b: int, x: int, y: int)
    requires n == q * (a * b) + (x * a + y)
    ensures n == (q * b + x) * a + y
  {
    assert (q * b + x) * a == q * b * a + x * a;
    assert q * b * a == q * (a * b);
  }

  lemma {:induction false} Below(r: nat, b: nat, y: nat, a: nat)
    requires r < b && y < a
    ensures r * a + y < a * b
  {
    assert (b - 1 - r) * a >= 0;
    assert (b - 1 - r) * a == b * a - a - r * a;
  }

  lemma {:induction false} Grows(d: int, m: int)
    requires m >= 0
    ensures d >= 1 ==> d * m >= m
    ensures d <= -1 ==> d * m <= -m
  {
    assert d >= 1 ==> (d - 1) * m >= 0;
    assert d <= -1 ==> (-1 - d) * m >= 0;
  }

  lemma {:induction false} Quotient(n: int, m: int, q: int, r: int)
    requires n == q * m + r && 0 <= r < m
    ensures n / m == q && n % m == r
  {
    Grows(n / m - q, m);
    assert n == n / m * m + n % m;
    assert (n / m - q) * m == r - n % m;
  }

  lemma {:induction false} DivideTwice(n: nat, a: nat, b: nat)
    requires a > 0 && b > 0
    ensures a * b > 0 && n / a / b == n / (a * b)
  {
    var x, y := n / a, n % a;
    var q, r := x / b, x % b;
    Below(0, b, 0, a);
    Recompose(n, x, a, y, q, b, r);
    Below(r, b, y, a);
    Quotient(n, a * b, q, r * a + y);
  }

  /// Bits above a position do not reach what is read below it.
  lemma {:induction false} LowPart(n: nat, a: nat, m: nat, c: nat)
    requires a > 0 && m > 0 && c > 0
    ensures a * (m * c) > 0 && n % (a * (m * c)) / a % m == n / a % m
  {
    Below(0, c, 0, m);
    Below(0, m * c, 0, a);
    var w := a * (m * c);
    var q, s := n / w, n % w;
    var x, y := s / a, s % a;
    Split(n, q, a, m * c, x, y);
    Quotient(n, a, q * (m * c) + x, y);
    var u, v := x / m, x % m;
    Split(q * (m * c) + x, q, m, c, u, v);
    Quotient(q * (m * c) + x, m, q * c + u, v);
  }

  lemma {:induction false} SmallPowers()
    ensures Pow2(0) == 1 && Pow2(1) == 2 && Pow2(2) == 4 && Pow2(3) == 8 && Pow2(4) == 16 && Pow2(5) == 32
    ensures Pow2(6) == 64 && Pow2(7) == 128 && Pow2(8) == 256 && Pow2(9) == 512 && Pow2(10) == 1024
    ensures Pow2(11) == 2048 && Pow2(12) == 4096
  {
    assert Pow2(4) == 16;
    assert Pow2(8) == 256;
  }

  lemma {:induction false} Doubles(k: nat)
    ensures Pow2(k) == if k == 0 then 1 else 2 * Pow2(k - 1)
  {
  }

  lemma {:induction false} PowersAdd(a: nat, b: nat)
    ensures Pow2(a + b) == Pow2(a) * Pow2(b)
  {
    Doubles(a);
    Doubles(a + b);
    hide Pow2;
    if a > 0 {
      PowersAdd(a - 1, b);
      var x, y := Pow2(a - 1), Pow2(b);
      assert 2 * x * y == 2 * (x * y);
    }
  }

  lemma {:induction false} WordIsAPower()
    ensures Pow2(32) == WORD
  {
    SmallPowers();
    PowersAdd(8, 8);
    PowersAdd(16, 16);
  }

  /// A few bits of the wrapped buffer are those of the number it is the tail of.
  lemma {:induction false} WordKeepsBits(n: nat, bits: nat, width: nat)
    requires bits + width <= 32
    ensures n % WORD / Pow2(bits) % Pow2(width) == n / Pow2(bits) % Pow2(width)
  {
    hide Pow2;
    WordIsAPower();
    PowersAdd(width, 32 - bits - width);
    PowersAdd(bits, 32 - bits);
    LowPart(n, Pow2(bits), Pow2(width), Pow2(32 - bits - width));
  }

  lemma {:induction false} FiveBits(n: nat, bits: nat)
    requires bits <= 12
    ensures n % WORD / Pow2(bits) % 32 == n / Pow2(bits) % 32
  {
    SmallPowers();
    WordKeepsBits(n, bits, 5);
  }

  lemma {:induction false} EightBits(n: nat, bits: nat)
    requires bits <= 12
    ensures n % WORD / Pow2(bits) % 256 == n / Pow2(bits) % 256
  {
    SmallPowers();
    WordKeepsBits(n, bits, 8);
  }

  lemma {:induction false} TailBits(n: nat, bits: nat)
    requires bits <= 12
    ensures n % WORD % Pow2(bits) == n % Pow2(bits)
  {
    SmallPowers();
    WordKeepsBits(n, 0, bits);
  }

  lemma {:induction false} Shifted(n: nat, x: nat, m: nat)
    ensures (n % WORD * m + x) % WORD == (n * m + x) % WORD
  {
    var q, low := n / WORD, n % WORD;
    var s := low * m + x;
    assert n * m == q * WORD * m + low * m;
    assert q * WORD * m == q * m * WORD;
    assert n * m + x == (q * m + s / WORD) * WORD + s % WORD;
    Quotient(n * m + x, WORD, q * m + s / WORD, s % WORD);
  }

  // ------------------------------------------------------------------------
  // Digits and letters
  // ------------------------------------------------------------------------

  lemma {:induction false} DigitsOfValue(d: seq<Quint>)
    ensures Digits(Value(d), |d|) == d && Value(d) < Pow2(5 * |d|)
  {
    if d != [] {
      var front, last := d[..|d| - 1], d[|d| - 1];
      DigitsOfValue(front);
      Quotient(Value(d), 32, Value(front), last);
      assert d == front + [last];
      FiveMore(5 * |front|);
    }
  }

  lemma {:induction false} FiveMore(k: nat)
    ensures Pow2(k + 5) == 32 * Pow2(k)
  {
    assert Pow2(k + 5) == 2 * Pow2(k + 4) == 4 * Pow2(k + 3) == 8 * Pow2(k + 2) == 16 * Pow2(k + 1);
  }

  lemma {:induction false} ValueOfDigits(n: nat, w: nat)
    requires n < Pow2(5 * w)
    ensures Value(Digits(n, w)) == n
  {
    if w > 0 {
      FiveMore(5 * (w - 1));
      ValueOfDigits(n / 32, w - 1);
      assert Digits(n, w)[..w - 1] == Digits(n / 32, w - 1);
    }
  }

  lemma {:induction false} PowersAgree(n: nat)
    ensures Pow2(8 * n) == Pow256(n)
  {
    if n > 0 {
      PowersAgree(n - 1);
      FiveMore(8 * n - 5);
      assert Pow2(8 * n - 5) == 2 * Pow2(8 * n - 6) == 4 * Pow2(8 * n - 7) == 8 * Pow2(8 * n - 8);
    }
  }

  lemma {:induction false} LettersHavePlaces(d: seq<Quint>)
    ensures Places(Letters(d)) == Some(d)
  {
    if d != [] {
      var front, k := d[..|d| - 1], d[|d| - 1];
      LettersHavePlaces(front);
      LetterHasPlace(k);
      hide Letter, Place;
      assert Letters(d)[..|front|] == Letters(front);
      assert d == front + [k];
    }
  }

  lemma {:induction false} LetterHasPlace(k: Quint)
    ensures Place(Letter(k)) == Some(k)
  {
  }

  function UpperAll(s: string): (u: string)
    ensures |u| == |s|
  {
    if s == "" then "" else UpperAll(s[..|s| - 1]) + [Upper(s[|s| - 1])]
  }

  lemma {:induction false} PlaceHasLetter(c: char)
    requires Place(c).Some?
    ensures Letter(Place(c).value) == Upper(c)
  {
  }

  /// Places read letters back, up to case.
  lemma {:induction false} PlacesHaveLetters(s: string)
    requires Places(s).Some?
    ensures Letters(Places(s).value) == UpperAll(s)
  {
    if s != "" {
      var front, c := s[..|s| - 1], s[|s| - 1];
      PlacesHaveLetters(front);
      PlaceHasLetter(c);
      hide Letter, Place, Upper;
      var d, k := Places(front).value, Place(c).value;
      assert Places(s) == Some(d + [k]);
      assert (d + [k])[..|d|] == d;
    }
  }

  lemma {:induction false} CaseIsLost(s: string)
    ensures Places(UpperAll(s)) == Places(s)
  {
    if s != "" {
      CaseIsLost(s[..|s| - 1]);
      assert UpperAll(s)[..|s| - 1] == UpperAll(s[..|s| - 1]);
    }
  }

  // ------------------------------------------------------------------------
  // Both directions
  // ------------------------------------------------------------------------

  lemma {:induction false} PaddedNumber(number: nat, bits: nat, whole: nat)
    requires number < Pow2(whole)
    ensures number * Pow2(bits) < Pow2(whole + bits)
    ensures number * Pow2(bits) / Pow2(bits) == number && number * Pow2(bits) % Pow2(bits) == 0
  {
    hide Pow2;
    PowersAdd(whole, bits);
    Below(number, Pow2(whole), 0, Pow2(bits));
    Quotient(number * Pow2(bits), Pow2(bits), number, 0);
  }

  lemma {:induction false} UnpaddedNumber(value: nat, bits: nat, whole: nat)
    requires value < Pow2(whole + bits)
    ensures value / Pow2(bits) < Pow2(whole)
    ensures value % Pow2(bits) == 0 ==> value == value / Pow2(bits) * Pow2(bits)
  {
    hide Pow2;
    PowersAdd(whole, bits);
    var q := value / Pow2(bits);
    Grows(q - Pow2(whole), Pow2(bits));
    assert value == q * Pow2(bits) + value % Pow2(bits);
    assert (q - Pow2(whole)) * Pow2(bits) == q * Pow2(bits) - Pow2(whole) * Pow2(bits);
  }

  /// Bytes spelled with fewer than eight zero bits after them decode, in either case.
  lemma {:induction false} ZeroFilledDecodes(b: Bytes, s: string, bits: nat, m: nat)
    requires 8 * |b| + bits == 5 * m && bits < 8
    requires UpperAll(s) == Letters(Digits(FromBigEndian(b) * Pow2(bits), m))
    ensures Decoded(s) == Some(b)
  {
    hide Pow2, Digits, Value, Letters, Places, UpperAll, FromBigEndian, BigEndian, Pow256;
    var n := |b|;
    var number := FromBigEndian(b);
    BytesRoundTrip(b);
    PowersAgree(n);
    PaddedNumber(number, bits, 8 * n);
    assert Leftover(m) == bits && 5 * m / 8 == n;
    ValueOfDigits(number * Pow2(bits), m);
    LettersHavePlaces(Digits(number * Pow2(bits), m));
    CaseIsLost(s);
  }

  /// Decoding an encoding gives the bytes back, in either case.
  lemma {:induction false} BytesSurvive(b: Bytes, s: string)
    requires UpperAll(s) == Encoded(b)
    ensures Decoded(s) == Some(b)
  {
    ZeroFilledDecodes(b, s, Padding(|b|), Symbols(|b|));
  }

  function Capitals(): string {
    "ABCDEFGHIJKLMNOPQRSTUVWXYZ234567"
  }

  function Smalls(): string {
    "abcdefghijklmnopqrstuvwxyz234567"
  }

  lemma {:induction false} CapitalAt(k: Quint)
    ensures |Capitals()| == 32 && Capitals()[k] as int == if k < 26 then 'A' as int + k else '2' as int + k - 26
  {
  }

  lemma {:induction false} SmallAt(k: Quint)
    ensures |Smalls()| == 32 && Smalls()[k] as int == if k < 26 then 'a' as int + k else '2' as int + k - 26
  {
  }

  /// The alphabet, read in either case and no other way, and two of the examples of
  /// section 10 of RFC 4648.
  lemma {:induction false} TheAlphabet(k: Quint, c: char)
    ensures |Capitals()| == |Smalls()| == 32
    ensures Letter(k) == Capitals()[k]
    ensures Place(c) == Some(k) <==> c == Capitals()[k] || c == Smalls()[k]
    ensures Encoded([0x66]) == "MY"
    ensures Encoded([0x66, 0x6F, 0x6F]) == "MZXW6"
  {
    hide Capitals, Smalls, Encoded;
    CapitalAt(k);
    SmallAt(k);
    OneByteSpelled();
    ThreeBytesSpelled();
  }

  lemma {:induction false} OneByteSpelled()
    ensures Encoded([0x66]) == "MY"
  {
    hide Letters, Digits;
    Numbers();
    NoLetters();
    OneMoreSpelled(0, 0, 12);
    OneMoreSpelled(12, 1, 24);
  }

  lemma {:induction false} ThreeBytesSpelled()
    ensures Encoded([0x66, 0x6F, 0x6F]) == "MZXW6"
  {
    hide Letters, Digits, FromBigEndian, Pow2;
    Numbers();
    NoLetters();
    OneMoreSpelled(0, 0, 12);
    OneMoreSpelled(12, 1, 25);
    OneMoreSpelled(409, 2, 23);
    OneMoreSpelled(13111, 3, 22);
    OneMoreSpelled(419574, 4, 30);
  }

  lemma {:induction false} NoLetters()
    ensures Letters(Digits(0, 0)) == ""
  {
  }

  lemma {:induction false} Numbers()
    ensures FromBigEndian([0x66]) == 0x66 && FromBigEndian([0x66, 0x6F, 0x6F]) == 0x66_6F6F
    ensures Pow2(1) == 2 && Pow2(2) == 4
  {
    OneMoreByte([], 0x66);
    OneMoreByte([0x66], 0x6F);
    OneMoreByte([0x66, 0x6F], 0x6F);
    assert [0x66] + [0x6F] == [0x66, 0x6F] && [0x66, 0x6F] + [0x6F] == [0x66, 0x6F, 0x6F];
    assert [] + [0x66] == [0x66];
  }

  lemma {:induction false} OneMoreSpelled(n: nat, w: nat, k: Quint)
    ensures Letters(Digits(n * 32 + k, w + 1)) == Letters(Digits(n, w)) + [Letter(k)]
  {
    hide Letters, Letter;
    Quotient(n * 32 + k, 32, n, k);
    Spells(Digits(n, w), k);
  }

  lemma {:induction false} Spells(d: seq<Quint>, k: Quint)
    ensures Letters(d + [k]) == Letters(d) + [Letter(k)]
  {
    assert (d + [k])[..|d|] == d;
  }

  /// One more zero digit is five more zero bits.
  lemma {:induction false} ZeroDigit(number: nat, bits: nat, w: nat)
    ensures Digits(number * Pow2(bits + 5), w + 1) == Digits(number * Pow2(bits), w) + [0]
  {
    FiveMore(bits);
    var x := number * Pow2(bits);
    assert number * Pow2(bits + 5) == x * 32;
    Quotient(x * 32, 32, x, 0);
  }

  lemma {:induction false} ZeroLetter(d: seq<Quint>)
    ensures Letters(d + [0]) == Letters(d) + "A"
  {
    assert (d + [0])[..|d|] == d;
  }

  lemma {:induction false} Lengths(m: nat)
    ensures var n, bits := 5 * m / 8, Leftover(m);
            && 8 * n + bits == 5 * m
            && (bits >= 5 <==> m % 8 == 1 || m % 8 == 3 || m % 8 == 6)
            && (if bits >= 5 then Symbols(n) == m - 1 && Padding(n) == bits - 5
                else Symbols(n) == m && Padding(n) == bits)
  {
  }

  /// Whether the last of so many symbols holds no bit of a byte.
  predicate LastIsIdle(m: nat) {
    m % 8 == 1 || m % 8 == 3 || m % 8 == 6
  }

  /// What an accepted text spells. It is the encoding of what it decodes to, or
  /// that with one more `A`: exactly where the last symbol holds no bit of a byte.
  lemma {:induction false} AcceptedTextIsTheEncoding(s: string)
    requires Decoded(s).Some?
    ensures var b := Decoded(s).value;
            UpperAll(s) == if LastIsIdle(|s|) then Encoded(b) + "A" else Encoded(b)
  {
    hide Pow2, Digits, Value, Letters, Places, UpperAll, FromBigEndian, BigEndian, Pow256, Symbols, Padding, Leftover;
    var d := Places(s).value;
    var m, bits := |d|, Leftover(|d|);
    var n := 5 * m / 8;
    Lengths(m);
    var number := Value(d) / Pow2(bits);
    PlacesHaveLetters(s);
    DigitsOfValue(d);
    UnpaddedNumber(Value(d), bits, 8 * n);
    PowersAgree(n);
    NumbersRoundTrip(number, n);
    assert d == Digits(number * Pow2(bits), m);
    if bits >= 5 {
      ZeroDigit(number, bits - 5, m - 1);
      ZeroLetter(Digits(number * Pow2(bits - 5), m - 1));
    }
  }

  /// Which texts decode to given bytes: their encoding and, where the last symbol is
  /// idle, the encoding and one `A`; both in either case.
  lemma {:induction false} DecodingIsExact(b: Bytes, s: string)
    ensures Decoded(s) == Some(b) <==>
            UpperAll(s) == Encoded(b) || (UpperAll(s) == Encoded(b) + "A" && LastIsIdle(|s|))
  {
    hide Pow2, Digits, Value, Letters, UpperAll, FromBigEndian, Decoded, Symbols, Padding, Leftover;
    if Decoded(s) == Some(b) {
      AcceptedTextIsTheEncoding(s);
    } else if UpperAll(s) == Encoded(b) {
      BytesSurvive(b, s);
    } else if UpperAll(s) == Encoded(b) + "A" && LastIsIdle(|s|) {
      var m, bits := Symbols(|b|), Padding(|b|);
      ZeroDigit(FromBigEndian(b), bits, m);
      ZeroLetter(Digits(FromBigEndian(b) * Pow2(bits), m));
      IdleLengths(|b|);
      ZeroFilledDecodes(b, s, bits + 5, m + 1);
    }
  }

  lemma {:induction false} IdleLengths(n: nat)
    requires LastIsIdle(Symbols(n) + 1)
    ensures 8 * n + Padding(n) + 5 == 5 * (Symbols(n) + 1) && Padding(n) + 5 < 8
  {
  }

  /// The shortest: one letter, accepted as the encoding of nothing, which is not it.
  lemma {:induction false} ALoneLetterIsNothing()
    ensures Decoded("A") == Some([]) && Encoded([]) == ""
  {
    var zero: seq<Quint> := [0];
    assert zero[..0] == [] && Letters(zero) == "A" && Value(zero) == 0;
    LettersHavePlaces(zero);
    assert Leftover(1) == 5;
    assert Symbols(0) == 0;
  }

  // ------------------------------------------------------------------------
  // The loops
  // ------------------------------------------------------------------------

  lemma {:induction false} EmitFive(n: nat, bits: nat)
    requires 5 <= bits <= 12
    ensures n / Pow2(bits) * 32 + n / Pow2(bits - 5) % 32 == n / Pow2(bits - 5)
  {
    PowersAdd(bits - 5, 5);
    SmallPowers();
    DivideTwice(n, Pow2(bits - 5), 32);
  }

  lemma {:induction false} EmitEight(n: nat, bits: nat)
    requires 8 <= bits <= 12
    ensures n / Pow2(bits) * 256 + n / Pow2(bits - 8) % 256 == n / Pow2(bits - 8)
  {
    PowersAdd(bits - 8, 8);
    SmallPowers();
    DivideTwice(n, Pow2(bits - 8), 256);
  }

  /// Bits arriving at the bottom do not move what is above them.
  lemma {:induction false} MoreBits(n: nat, x: nat, bits: nat, more: nat)
    requires x < Pow2(more)
    ensures (n * Pow2(more) + x) / Pow2(bits + more) == n / Pow2(bits)
  {
    var w := n * Pow2(more) + x;
    Quotient(w, Pow2(more), n, x);
    PowersAdd(more, bits);
    DivideTwice(w, Pow2(more), Pow2(bits));
  }

  lemma {:induction false} OneMoreDigit(d: seq<Quint>, x: Quint)
    ensures Value(d + [x]) == Value(d) * 32 + x && Letters(d + [x]) == Letters(d) + [Letter(x)]
  {
    assert (d + [x])[..|d|] == d;
  }

  lemma {:induction false} OneMoreByte(b: Bytes, x: byte)
    ensures FromBigEndian(b + [x]) == FromBigEndian(b) * 256 + x
  {
    assert (b + [x])[..|b|] == b;
  }

  /// The buffer's state: so many bits read as the number `n`, all but the last
  /// few of them already written, the buffer holding what a word can of it.
  predicate Holds(n: nat, total: nat, buffer: nat, bits: nat, written: nat, value: nat, width: nat) {
    buffer == n % WORD && width * written + bits == total && value == n / Pow2(bits)
  }

  lemma {:induction false} Reads(n: nat, total: nat, buffer: nat, bits: nat, written: nat, value: nat, width: nat,
                                 x: nat, more: nat)
    requires Holds(n, total, buffer, bits, written, value, width) && x < Pow2(more)
    ensures Holds(
      n * Pow2(more) + x, total + more, (buffer * Pow2(more) + x) % WORD, bits + more, written, value, width)
  {
    hide Pow2;
    Shifted(n, x, Pow2(more));
    MoreBits(n, x, bits, more);
  }

  lemma {:induction false} WritesFive(n: nat, total: nat, buffer: nat, bits: nat, written: nat, value: nat)
    requires Holds(n, total, buffer, bits, written, value, 5) && 5 <= bits <= 12
    ensures Holds(n, total, buffer, bits - 5, written + 1, value * 32 + buffer / Pow2(bits - 5) % 32, 5)
  {
    hide Pow2;
    EmitFive(n, bits);
    FiveBits(n, bits - 5);
  }

  lemma {:induction false} WritesEight(n: nat, total: nat, buffer: nat, bits: nat, written: nat, value: nat)
    requires Holds(n, total, buffer, bits, written, value, 8) && 8 <= bits <= 12
    ensures Holds(n, total, buffer, bits - 8, written + 1, value * 256 + buffer / Pow2(bits - 8) % 256, 8)
  {
    hide Pow2;
    EmitEight(n, bits);
    EightBits(n, bits - 8);
  }

  /// The last, part-filled symbol: what is left, with zeros below it.
  lemma {:induction false} WritesLast(n: nat, total: nat, buffer: nat, bits: nat, written: nat, value: nat)
    requires Holds(n, total, buffer, bits, written, value, 5) && bits <= 5
    ensures value * 32 + buffer * Pow2(5 - bits) % WORD % 32 == n * Pow2(5 - bits)
  {
    var pad := 5 - bits;
    SmallPowers();
    Shifted(n, 0, Pow2(pad));
    TailBits(n * Pow2(pad), 5);
    MoreBits(n, 0, bits, pad);
  }

  /// The encoder. Shifting a byte in and taking five bits out are arithmetic on
  /// a 32-bit word that wraps.
  method Encode(bytes: Bytes) returns (text: string)
    ensures text == Encoded(bytes)
  {
    hide Pow2, Value, Digits, Letters, FromBigEndian, Holds;
    SmallPowers();
    var buffer: nat, bits: nat := 0, 0;
    text := "";
    ghost var digits: seq<Quint> := [];
    Nothing(5);
    for k := 0 to |bytes|
      invariant Holds(FromBigEndian(bytes[..k]), 8 * k, buffer, bits, |digits|, Value(digits), 5) && 0 <= bits < 5
      invariant text == Letters(digits)
    {
      ghost var n := FromBigEndian(bytes[..k]) * 256 + bytes[k];
      assert bytes[..k + 1] == bytes[..k] + [bytes[k]];
      OneMoreByte(bytes[..k], bytes[k]);
      Reads(FromBigEndian(bytes[..k]), 8 * k, buffer, bits, |digits|, Value(digits), 5, bytes[k], 8);
      buffer := (buffer * 256 + bytes[k]) % WORD;
      bits := bits + 8;
      while bits >= 5
        invariant Holds(n, 8 * (k + 1), buffer, bits, |digits|, Value(digits), 5) && 0 <= bits <= 12
        invariant text == Letters(digits)
      {
        WritesFive(n, 8 * (k + 1), buffer, bits, |digits|, Value(digits));
        bits := bits - 5;
        var symbol := buffer / Pow2(bits) % 32;
        OneMoreDigit(digits, symbol);
        text, digits := text + [Letter(symbol)], digits + [symbol];
      }
    }
    assert bytes[..|bytes|] == bytes;
    ghost var n := FromBigEndian(bytes);
    Counted(n, 8 * |bytes|, buffer, bits, |digits|, Value(digits), 5);
    if bits > 0 {
      WritesLast(n, 8 * |bytes|, buffer, bits, |digits|, Value(digits));
      var symbol := buffer * Pow2(5 - bits) % WORD % 32;
      OneMoreDigit(digits, symbol);
      text, digits := text + [Letter(symbol)], digits + [symbol];
    }
    DigitsOfValue(digits);
  }

  lemma {:induction false} Nothing(width: nat)
    ensures Holds(FromBigEndian([]), 0, 0, 0, 0, 0, width) && Holds(Value([]), 0, 0, 0, 0, 0, width)
    ensures FromBigEndian([]) == 0 && Value([]) == 0 && Letters([]) == "" && Places("") == Some([])
  {
  }

  lemma {:induction false} Counted(n: nat, total: nat, buffer: nat, bits: nat, written: nat, value: nat, width: nat)
    requires Holds(n, total, buffer, bits, written, value, width)
    ensures buffer == n % WORD && width * written + bits == total && value == n / Pow2(bits)
  {
  }

  lemma {:induction false} OneMorePlace(s: string, k: nat)
    requires k < |s|
    ensures Places(s[..k + 1]) == match Places(s[..k])
                                  case None => None
                                  case Some(d) => match Place(s[k]) case None => None case Some(x) => Some(d + [x])
    ensures Places(s[..k + 1]).None? ==> Places(s).None?
    decreases |s|
  {
    assert s[..k + 1][..k] == s[..k];
    if k + 1 < |s| {
      var n := |s| - 1;
      assert s[..n][..k + 1] == s[..k + 1] && s[..n][..k] == s[..k];
      OneMorePlace(s[..n], k);
    } else {
      assert s[..k + 1] == s;
    }
  }

  lemma {:induction false} DecodedIs(text: string, d: seq<Quint>, buffer: nat, bits: nat, bytes: Bytes)
    requires Places(text) == Some(d) && bits < 8
    requires Holds(Value(d), 5 * |d|, buffer, bits, |bytes|, FromBigEndian(bytes), 8)
    ensures Decoded(text) == if buffer % Pow2(bits) != 0 then None else Some(bytes)
  {
    hide Pow2, Value, Places, FromBigEndian, BigEndian;
    TailBits(Value(d), bits);
    BytesRoundTrip(bytes);
    assert Leftover(|d|) == bits && 5 * |d| / 8 == |bytes|;
  }

  lemma {:induction false} Unplaced(text: string)
    requires Places(text).None?
    ensures Decoded(text).None?
  {
  }

  /// The decoder.
  method Decode(text: string) returns (out: Option<Bytes>)
    ensures out == Decoded(text)
  {
    hide Pow2, Value, Digits, Places, Place, FromBigEndian, BigEndian, Holds, Letters, Decoded;
    SmallPowers();
    var buffer: nat, bits: nat := 0, 0;
    var bytes: Bytes := [];
    ghost var d: seq<Quint> := [];
    Nothing(8);
    for k := 0 to |text|
      invariant Places(text[..k]) == Some(d)
      invariant Holds(Value(d), 5 * k, buffer, bits, |bytes|, FromBigEndian(bytes), 8) && 0 <= bits < 8
    {
      OneMorePlace(text, k);
      var place := Place(text[k]);
      if place.None? {
        Unplaced(text);
        return None;
      }
      OneMoreDigit(d, place.value);
      Reads(Value(d), 5 * k, buffer, bits, |bytes|, FromBigEndian(bytes), 8, place.value, 5);
      d := d + [place.value];
      buffer := (buffer * 32 + place.value) % WORD;
      bits := bits + 5;
      if bits >= 8 {
        WritesEight(Value(d), 5 * (k + 1), buffer, bits, |bytes|, FromBigEndian(bytes));
        bits := bits - 8;
        var octet := buffer / Pow2(bits) % 256;
        OneMoreByte(bytes, octet);
        bytes := bytes + [octet];
      }
    }
    assert text[..|text|] == text;
    DecodedIs(text, d, buffer, bits, bytes);
    if bits > 0 && buffer % Pow2(bits) != 0 {
      return None;
    }
    out := Some(bytes);
  }

  // ------------------------------------------------------------------------
  // Pasting
  // ------------------------------------------------------------------------

  function Scheme(): string {
    "intranet-chat://join/"
  }

  function OneSlashScheme(): string {
    "intranet-chat:/join/"
  }

  lemma {:induction false} SchemesDiffer()
    ensures |Scheme()| > 15 && Scheme()[8] == '-' && Scheme()[15] == '/'
    ensures |OneSlashScheme()| > 15 && OneSlashScheme()[8] == '-' && OneSlashScheme()[15] == 'j'
  {
  }

  /// Unicode's White_Space.
  predicate IsSpace(c: char) {
    var n := c as int;
    0x09 <= n <= 0x0D || n == 0x20 || n == 0x85 || n == 0xA0 || n == 0x1680 || 0x2000 <= n <= 0x200A
    || n == 0x2028 || n == 0x2029 || n == 0x202F || n == 0x205F || n == 0x3000
  }

  function NotSpace(): char -> bool {
    c => !IsSpace(c)
  }

  /// What is left of a pasted text once its whitespace and scheme are off.
  function Payload(text: string): string {
    var kept := Filter(text, NotSpace());
    if Scheme() <= kept then kept[|Scheme()|..]
    else if OneSlashScheme() <= kept then kept[|OneSlashScheme()|..]
    else kept
  }

  /// The bytes of a pasted invite, before they are read as one.
  function FromUri(text: string): Option<Bytes> {
    Decoded(Payload(text))
  }

  /// What a pasted invite may have in front of its symbols, spelled in this case.
  predicate Carries(prefix: string) {
    prefix == "" || prefix == Scheme() || prefix == OneSlashScheme()
  }

  lemma {:induction false} UpperAt(s: string, k: nat)
    requires k < |s|
    ensures UpperAll(s)[k] == Upper(s[k])
  {
    if k < |s| - 1 {
      UpperAt(s[..|s| - 1], k);
    }
  }

  lemma {:induction false} UpperAfter(c: char, s: string)
    ensures UpperAll([c] + s) == [Upper(c)] + UpperAll(s)
  {
    forall k | 0 <= k <= |s| ensures UpperAll([c] + s)[k] == ([Upper(c)] + UpperAll(s))[k] {
      UpperAt([c] + s, k);
      if k > 0 {
        UpperAt(s, k - 1);
      }
    }
  }

  lemma {:induction false} DashHasNoPlace(s: string, k: nat)
    requires k < |s| && s[k] == '-'
    ensures Places(s).None?
  {
    if k < |s| - 1 {
      DashHasNoPlace(s[..|s| - 1], k);
    }
  }

  /// The alphabet has no dash, and every scheme one.
  lemma {:induction false} DashIsForeign(s: string, k: nat)
    requires k < |s| && s[k] == '-'
    ensures Decoded(s).None?
  {
    hide Places, Value, Pow2;
    DashHasNoPlace(s, k);
  }

  lemma {:induction false} PayloadIsTheRest(pasted: string, prefix: string, rest: string)
    requires Carries(prefix) && Decoded(rest).Some?
    requires Filter(pasted, NotSpace()) == prefix + rest
    ensures Payload(pasted) == rest
  {
    hide Decoded, Filter, Scheme, OneSlashScheme;
    SchemesDiffer();
    var kept := prefix + rest;
    if prefix == "" && |rest| > 8 && rest[8] == '-' {
      DashIsForeign(rest, 8);
    }
    if Scheme() <= kept {
      assert kept[8] == '-' && kept[15] == '/';
      assert prefix != "" && prefix != OneSlashScheme();
    } else if OneSlashScheme() <= kept {
      assert kept[8] == '-';
    }
    assert kept[|prefix|..] == rest;
  }

  /// Something is stripped only from the front, and only in the case it is spelled in.
  lemma {:induction false} PayloadIsASuffix(pasted: string)
    returns (front: string)
    ensures Carries(front) && Filter(pasted, NotSpace()) == front + Payload(pasted)
  {
    hide Filter, Scheme, OneSlashScheme;
    var kept := Filter(pasted, NotSpace());
    front := if Scheme() <= kept then Scheme() else if OneSlashScheme() <= kept then OneSlashScheme() else "";
  }

  lemma {:induction false} AllOneLetter(c: char, s: string, a: char)
    requires [c] + s == s + [a]
    ensures c == a
  {
    if s == "" {
      assert ([c] + s)[0] == (s + [a])[0];
    } else {
      var rest := s[1..];
      assert ([c] + s)[0] == (s + [a])[0];
      assert ([c] + s)[1..] == s && (s + [a])[1..] == rest + [a];
      assert s == [c] + rest;
      AllOneLetter(c, rest, a);
    }
  }

  /// Bytes that are all zero are spelled by the one letter `A`, and one more in
  /// front of them reads as one more behind them.
  predicate OneMoreInFront(b: Bytes, prefix: string) {
    prefix != "" && Carries(prefix[..|prefix| - 1]) && Upper(prefix[|prefix| - 1]) == 'A'
    && "A" + Encoded(b) == Encoded(b) + "A" && LastIsIdle(|Encoded(b)| + 1)
  }

  /// When an invite survives being pasted: whatever whitespace it gained, and
  /// whichever case its symbols are in, exactly when what precedes them is a
  /// scheme in the scheme's own case, or nothing. (All zeros have one more form.)
  lemma {:induction false} InvitesSurvivePasting(b: Bytes, pasted: string, prefix: string, symbols: string)
    requires UpperAll(symbols) == Encoded(b)
    requires Filter(pasted, NotSpace()) == prefix + symbols
    ensures FromUri(pasted) == Some(b) <==> Carries(prefix) || OneMoreInFront(b, prefix)
  {
    hide UpperAll, Decoded, Encoded, Filter, Scheme, OneSlashScheme, Payload, Carries, LastIsIdle, Upper;
    if Carries(prefix) {
      BytesSurvive(b, symbols);
      PayloadIsTheRest(pasted, prefix, symbols);
    } else if OneMoreInFront(b, prefix) {
      var n := |prefix| - 1;
      var rest := [prefix[n]] + symbols;
      UpperAfter(prefix[n], symbols);
      DecodingIsExact(b, rest);
      assert prefix + symbols == prefix[..n] + rest;
      PayloadIsTheRest(pasted, prefix[..n], rest);
    } else if FromUri(pasted) == Some(b) {
      ReadMeansCarried(b, pasted, prefix, symbols);
    }
  }

  lemma {:induction false} ReadMeansCarried(b: Bytes, pasted: string, prefix: string, symbols: string)
    requires UpperAll(symbols) == Encoded(b)
    requires Filter(pasted, NotSpace()) == prefix + symbols
    requires FromUri(pasted) == Some(b)
    ensures Carries(prefix) || OneMoreInFront(b, prefix)
  {
    hide UpperAll, Decoded, Encoded, Filter, Scheme, OneSlashScheme, Payload, Carries, LastIsIdle, Upper;
    var payload := Payload(pasted);
    DecodingIsExact(b, payload);
    var front := PayloadIsASuffix(pasted);
    assert |front| + |payload| == |prefix| + |symbols|;
    if |payload| == |symbols| {
      assert (front + payload)[..|front|] == front && (prefix + symbols)[..|front|] == prefix;
    } else {
      var n := |prefix| - 1;
      assert (front + payload)[..n] == front && (prefix + symbols)[..n] == prefix[..n];
      assert (front + payload)[n..] == payload && (prefix + symbols)[n..] == [prefix[n]] + symbols;
      UpperAfter(prefix[n], symbols);
      AllOneLetter(Upper(prefix[n]), Encoded(b), 'A');
    }
  }

  function UpperScheme(): string {
    "INTRANET-CHAT://JOIN/"
  }

  lemma {:induction false} NothingToFilter(s: string)
    requires forall k :: 0 <= k < |s| ==> !IsSpace(s[k])
    ensures Filter(s, NotSpace()) == s
  {
    if s != "" {
      NothingToFilter(s[..|s| - 1]);
    }
  }

  /// An invite put in upper case whole is no invite, whatever follows its scheme.
  lemma {:induction false} UpperCasedInvitesAreRefused(rest: string)
    ensures FromUri(UpperScheme() + rest).None?
  {
    hide Decoded, Filter, UpperAll;
    NothingToFilter(UpperScheme());
    FilterConcat(UpperScheme(), rest, NotSpace());
    var kept := Filter(UpperScheme() + rest, NotSpace());
    assert kept[0] == 'I' && kept[8] == '-';
    assert Scheme()[0] == 'i' && OneSlashScheme()[0] == 'i';
    DashIsForeign(kept, 8);
  }

  lemma {:induction false} LettersArePlain(d: seq<Quint>)
    ensures UpperAll(Letters(d)) == Letters(d)
    ensures forall k :: 0 <= k < |Letters(d)| ==> !IsSpace(Letters(d)[k])
  {
    if d != [] {
      LettersArePlain(d[..|d| - 1]);
      assert Letters(d)[..|d| - 1] == Letters(d[..|d| - 1]);
    }
  }

  /// As it is given out, every invite is read.
  lemma {:induction false} InvitesAreRead(b: Bytes)
    ensures FromUri("intranet-chat://join/" + Encoded(b)) == Some(b)
  {
    hide UpperAll, Letters, Digits, Decoded, Filter, FromUri, Carries;
    var prefix, symbols := "intranet-chat://join/", Encoded(b);
    LettersArePlain(Digits(FromBigEndian(b) * Pow2(Padding(|b|)), Symbols(|b|)));
    SchemeIsPlain();
    forall k | 0 <= k < |prefix + symbols| ensures !IsSpace((prefix + symbols)[k]) {
      assert (prefix + symbols)[k] == if k < |prefix| then prefix[k] else symbols[k - |prefix|];
    }
    NothingToFilter(prefix + symbols);
    InvitesSurvivePasting(b, prefix + symbols, prefix, symbols);
  }

  lemma {:induction false} SchemeIsPlain()
    ensures Carries("intranet-chat://join/")
    ensures forall k :: 0 <= k < |"intranet-chat://join/"| ==> !IsSpace("intranet-chat://join/"[k])
  {
  }

  /// Unicode's whitespace, and nothing else, is dropped wherever it is.
  lemma {:induction false} WhitespaceIsDropped(before: string, c: char, after: string)
    ensures c as int in {0x09, 0x0A, 0x0B, 0x0C, 0x0D, 0x20, 0x85, 0xA0, 0x1680,
                         0x2000, 0x2001, 0x2002, 0x2003, 0x2004, 0x2005, 0x2006, 0x2007, 0x2008, 0x2009, 0x200A,
                         0x2028, 0x2029, 0x202F, 0x205F, 0x3000}
            <==> Filter(before + [c] + after, NotSpace()) == Filter(before + after, NotSpace())
  {
    FilterConcat(before + [c], after, NotSpace());
    FilterConcat(before, after, NotSpace());
    FilterAppend(before, c, NotSpace());
    var f, g := Filter(before, NotSpace()), Filter(after, NotSpace());
    assert |f + [c] + g| == |f + g| + 1;
  }
}
