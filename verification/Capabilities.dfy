/**
  How a grant is named and how one is found (crates/kols-core/src/permissions.rs):
  three scopes of a verb, resolved narrowest first, one level deep.
 */
module Capabilities {
  import opened Prelude

  /** A scope a capability can be granted at. */
  datatype Scope = Network | Category(id: Id) | Channel(id: Id)

  /** What replay says an identity holds, by the capability's exact name. */
  type Holdings = (Id, string) -> bool

  function HexDigit(n: nat): char
    requires n < 16
  {
    if n < 10 then ('0' as int + n) as char else ('a' as int + n - 10) as char
  }

  /// The last `w` base-16 digits of a number.
  function HexOf(n: nat, w: nat): (s: string)
    ensures |s| == w
  {
    if w == 0 then "" else HexOf(n / 16, w - 1) + [HexDigit(n % 16)]
  }

  function Hex(id: Id): (s: string)
    ensures |s| == 64
  {
    HexOf(id, 64)
  }

  function Reach(scope: Scope): string {
    match scope
    case Network => "*"
    case Category(id) => "cat:" + Hex(id)
    case Channel(id) => Hex(id)
  }

  /// A capability's name, as the registry and the log carry it.
  function Name(scope: Scope, verb: string): string {
    "chat:" + verb + ":" + Reach(scope)
  }

  /// Whether a verb is held for a channel: at it, at its category, or at large.
  predicate HoldsAt(holds: Holdings, who: Id, verb: string, channel: Id, category: Option<Id>) {
    holds(who, Name(Channel(channel), verb)) || HoldsInScope(holds, who, verb, category)
  }

  predicate HoldsInScope(holds: Holdings, who: Id, verb: string, category: Option<Id>) {
    (category.Some? && holds(who, Name(Category(category.value), verb))) || holds(who, Name(Network, verb))
  }

  /// What a hexadecimal digit stands for.
  function DigitOf(c: char): Option<nat> {
    if '0' <= c <= '9' then Some(c as int - '0' as int)
    else if 'a' <= c <= 'f' then Some(c as int - 'a' as int + 10)
    else None
  }

  /// What lower-case hexadecimal, read from the left, stands for.
  function ReadHex(s: string): Option<nat> {
    if s == "" then Some(0)
    else
      match (ReadHex(s[..|s| - 1]), DigitOf(s[|s| - 1]))
      case (Some(n), Some(d)) => Some(16 * n + d)
      case _ => None
  }

  /// An identifier is spelled as the 64 digits that read back as it.
  lemma {:induction false} HexReadsBack(id: Id)
    ensures ReadHex(Hex(id)) == Some(id) && |Hex(id)| == 64
  {
    hide Pow16, ReadHex, HexOf;
    IdsFit();
    HexOfReadsBack(id, 64);
  }

  lemma {:induction false} HexOfReadsBack(n: nat, w: nat)
    requires n < Pow16(w)
    ensures ReadHex(HexOf(n, w)) == Some(n)
  {
    if w > 0 {
      HexOfReadsBack(n / 16, w - 1);
      assert HexOf(n, w)[..w - 1] == HexOf(n / 16, w - 1);
    }
  }

  // ------------------------------------------------------------------------
  // A name is one scope's
  // ------------------------------------------------------------------------

  function Pow16(w: nat): nat {
    if w == 0 then 1 else 16 * Pow16(w - 1)
  }

  lemma {:induction false} HexIsInjective(m: nat, n: nat, w: nat)
    requires m < Pow16(w) && n < Pow16(w) && HexOf(m, w) == HexOf(n, w)
    ensures m == n
  {
    if w > 0 {
      var a, b := HexOf(m, w), HexOf(n, w);
      assert a[..w - 1] == HexOf(m / 16, w - 1) && b[..w - 1] == HexOf(n / 16, w - 1);
      assert a[w - 1] == HexDigit(m % 16) && b[w - 1] == HexDigit(n % 16);
      HexIsInjective(m / 16, n / 16, w - 1);
    }
  }

  lemma {:induction false} IdsFit()
    ensures Pow16(64) == ID_SPACE
  {
    assert Pow16(8) == 0x1_0000_0000;
    assert Pow16(16) == 0x1_0000_0000_0000_0000;
    assert Pow16(24) == 0x1_0000_0000_0000_0000_0000_0000;
    assert Pow16(32) == 0x1_0000_0000_0000_0000_0000_0000_0000_0000;
    assert Pow16(40) == 0x1_0000_0000_0000_0000_0000_0000_0000_0000_0000_0000;
    assert Pow16(48) == 0x1_0000_0000_0000_0000_0000_0000_0000_0000_0000_0000_0000_0000;
    assert Pow16(56) == 0x1_0000_0000_0000_0000_0000_0000_0000_0000_0000_0000_0000_0000_0000_0000;
  }

  lemma {:induction false} ReachIsInjective(s: Scope, t: Scope)
    requires Reach(s) == Reach(t)
    ensures s == t
  {
    hide HexOf, Pow16;
    IdsFit();
    match s {
      case Network => assert |Reach(s)| == 1;
      case Category(id) =>
        assert |Reach(s)| == 68;
        assert Reach(s)[4..] == Hex(id) && Reach(t)[4..] == Hex(t.id);
        HexIsInjective(id, t.id, 64);
      case Channel(id) =>
        assert |Reach(s)| == 64;
        HexIsInjective(id, t.id, 64);
    }
  }

  lemma {:induction false} ColonWithin(v: string, w: string, a: string, b: string)
    requires v + ":" + a == w + ":" + b
    ensures |v| < |w| ==> ':' in w
  {
    if |v| < |w| {
      var n := v + ":" + a;
      assert n[|v|] == ':' && n[..|w|] == w;
      assert w[|v|] == ':';
    }
  }

  /// A name is one verb at one scope: a grant spelled for one channel, category
  /// or verb is never another's.
  lemma {:induction false} NamesAreInjective(s: Scope, v: string, t: Scope, w: string)
    requires ':' !in v && ':' !in w && Name(s, v) == Name(t, w)
    ensures s == t && v == w
  {
    hide Reach;
    var n := Name(s, v);
    assert n[5..] == v + ":" + Reach(s) == w + ":" + Reach(t);
    ColonWithin(v, w, Reach(s), Reach(t));
    ColonWithin(w, v, Reach(t), Reach(s));
    assert n[5..][..|v|] == v && n[5..][..|w|] == w;
    assert n[5..][|v| + 1..] == Reach(s) && n[5..][|w| + 1..] == Reach(t);
    ReachIsInjective(s, t);
  }
}
