/**
  Machine integers, identifiers and the small generic vocabulary every other
  module shares.
 */
module Prelude {

  datatype Option<+T> = None | Some(value: T)

  datatype Result<+T, +E> = Ok(value: T) | Err(error: E)

  type byte = n: int | 0 <= n < 0x100

  type Bytes = seq<byte>

  const I64_MIN: int := -0x8000_0000_0000_0000
  const I64_MAX: int := 0x7FFF_FFFF_FFFF_FFFF
  const U32_MAX: int := 0xFFFF_FFFF
  const U64_MAX: int := 0xFFFF_FFFF_FFFF_FFFF

  type i64 = n: int | -0x8000_0000_0000_0000 <= n <= 0x7FFF_FFFF_FFFF_FFFF

  type u32 = n: int | 0 <= n <= 0xFFFF_FFFF

  type u64 = n: int | 0 <= n <= 0xFFFF_FFFF_FFFF_FFFF

  /// The number of values thirty-two bytes can take.
  const ID_SPACE: int := 0x1_0000000000000000_0000000000000000_0000000000000000_0000000000000000

  /// A thirty-two byte identifier, as the number its bytes spell big-endian.
  /// Comparing two of these numbers is comparing the byte arrays (see
  /// `Wire.BigEndianOrder`).
  type Id = n: int | 0 <= n < 0x1_0000000000000000_0000000000000000_0000000000000000_0000000000000000

  function Zeros(n: nat): (s: Bytes)
    ensures |s| == n
  {
    if n == 0 then [] else Zeros(n - 1) + [0]
  }

  /// `i64::saturating_sub`.
  function SaturatingSub(a: i64, b: i64): i64 {
    if a - b < I64_MIN then I64_MIN else if a - b > I64_MAX then I64_MAX else a - b
  }

  /// `i64::checked_add`.
  function CheckedAdd(a: i64, b: i64): Option<i64> {
    if I64_MIN <= a + b <= I64_MAX then Some(a + b) else None
  }

  /// The elements of `s` that `p` keeps, in order.
  function Filter<T>(s: seq<T>, p: T -> bool): (r: seq<T>)
    ensures |r| <= |s|
  {
    if s == [] then []
    else
      var front := Filter(s[..|s| - 1], p);
      if p(s[|s| - 1]) then front + [s[|s| - 1]] else front
  }

  lemma {:induction false} FilterAppend<T>(s: seq<T>, x: T, p: T -> bool)
    ensures Filter(s + [x], p) == if p(x) then Filter(s, p) + [x] else Filter(s, p)
  {
    assert (s + [x])[..|s|] == s;
  }

  lemma {:induction false} FilterConcat<T>(s: seq<T>, t: seq<T>, p: T -> bool)
    ensures Filter(s + t, p) == Filter(s, p) + Filter(t, p)
  {
    if t == [] {
      assert s + t == s;
    } else {
      var front, last := t[..|t| - 1], t[|t| - 1];
      FilterConcat(s, front, p);
      assert s + t == (s + front) + [last];
      FilterAppend(s + front, last, p);
    }
  }

  lemma {:induction false} FilterMembers<T>(s: seq<T>, p: T -> bool)
    ensures forall x :: x in Filter(s, p) <==> x in s && p(x)
  {
    if s != [] {
      FilterMembers(s[..|s| - 1], p);
      assert s == s[..|s| - 1] + [s[|s| - 1]];
    }
  }

  /// Filtering depends on the predicate only through the elements present.
  lemma {:induction false} FilterSame<T>(s: seq<T>, p: T -> bool, q: T -> bool)
    requires forall x :: x in s ==> p(x) == q(x)
    ensures Filter(s, p) == Filter(s, q)
  {
    if s != [] {
      FilterSame(s[..|s| - 1], p, q);
    }
  }

  lemma {:induction false} FilterAll<T>(s: seq<T>, p: T -> bool)
    requires forall x :: x in s ==> p(x)
    ensures Filter(s, p) == s
  {
    if s != [] {
      FilterAll(s[..|s| - 1], p);
      assert s == s[..|s| - 1] + [s[|s| - 1]];
    }
  }

  lemma {:induction false} FilterNone<T>(s: seq<T>, p: T -> bool)
    requires forall x :: x in s ==> !p(x)
    ensures Filter(s, p) == []
  {
    if s != [] {
      FilterNone(s[..|s| - 1], p);
    }
  }

  lemma {:induction false} FilterCommutes<T>(s: seq<T>, p: T -> bool, q: T -> bool)
    ensures Filter(Filter(s, p), q) == Filter(Filter(s, q), p)
  {
    if s != [] {
      var front, x := s[..|s| - 1], s[|s| - 1];
      FilterCommutes(front, p, q);
      FilterAppend(Filter(front, p), x, q);
      FilterAppend(Filter(front, q), x, p);
    }
  }

  /// The element `s[i]`, if kept, sits in the filtered sequence just after
  /// whatever of `s[..i]` is kept.
  lemma {:induction false} FilterAt<T>(s: seq<T>, p: T -> bool, i: nat)
    requires i < |s| && p(s[i])
    ensures |Filter(s[..i], p)| < |Filter(s, p)|
    ensures Filter(s, p)[|Filter(s[..i], p)|] == s[i]
    ensures Filter(s, p)[..|Filter(s[..i], p)|] == Filter(s[..i], p)
  {
    var rest := s[i + 1..];
    assert s == (s[..i] + [s[i]]) + rest;
    FilterConcat(s[..i] + [s[i]], rest, p);
    FilterAppend(s[..i], s[i], p);
  }

  /// Every element of the filtered sequence comes from an index of the original.
  lemma {:induction false} FilterFrom<T>(s: seq<T>, p: T -> bool, j: nat) returns (i: nat)
    requires j < |Filter(s, p)|
    ensures i < |s| && p(s[i])
    ensures j == |Filter(s[..i], p)|
    ensures Filter(s, p)[j] == s[i]
  {
    var n := |s| - 1;
    if j < |Filter(s[..n], p)| {
      i := FilterFrom(s[..n], p, j);
      assert s[..n][..i] == s[..i];
    } else {
      i := n;
    }
  }

  /// Two arrangements of the same elements: the last of one, found in the other.
  lemma {:induction false} LastElsewhere<T>(s: seq<T>, t: seq<T>) returns (i: nat)
    requires multiset(s) == multiset(t) && s != []
    ensures i < |t| && t[i] == s[|s| - 1]
    ensures t == t[..i] + [t[i]] + t[i + 1..]
    ensures multiset(s[..|s| - 1]) == multiset(t[..i] + t[i + 1..])
  {
    var x := s[|s| - 1];
    assert s == s[..|s| - 1] + [x];
    assert x in multiset(s);
    i :| 0 <= i < |t| && t[i] == x;
    assert t == t[..i] + [x] + t[i + 1..];
    assert multiset(t) == multiset(t[..i]) + multiset{x} + multiset(t[i + 1..]);
    assert multiset(s) == multiset(s[..|s| - 1]) + multiset{x};
    assert multiset(t[..i] + t[i + 1..]) == multiset(t[..i]) + multiset(t[i + 1..]);
    assert multiset(s) - multiset{x} == multiset(s[..|s| - 1]);
    assert multiset(t) - multiset{x} == multiset(t[..i]) + multiset(t[i + 1..]);
  }
}
