/**
  Who holds which display name (crates/kols-core/src/names.rs): claims folded in
  log order, the first on a key binding it.
 */
module Names {
  import opened Prelude
  import opened Records

  datatype NameRefusal = Unusable | Taken(holder: Id)

  /** The key two names are compared on, for names that may be claimed at all.
      Its Unicode steps are not modelled: it is any partial function. */
  type Keys = Text -> Option<Text>

  /** Keys and the identities holding them; identities and the names they show. */
  datatype Registry = Registry(byKey: map<Text, Id>, current: map<Id, Text>)

  const NOBODY := Registry(map[], map[])

  /** What an entry of the log says: a claim as its author made it, or nothing to
      do with names. */
  datatype Said = Claim(author: Id, name: Text) | SomethingElse

  /// Whether a claim would bind.
  predicate Binds(keyOf: Keys, names: Registry, author: Id, name: Text) {
    keyOf(name).Some?
    && (keyOf(name).value in names.byKey ==> names.byKey[keyOf(name).value] == author)
  }

  function Bound(keyOf: Keys, names: Registry, author: Id, name: Text): Registry {
    if Binds(keyOf, names, author, name) then
      Registry(names.byKey[keyOf(name).value := author], names.current[author := name])
    else names
  }

  /// Whether a replay looks at an entry: a claim whose author holds the right to.
  predicate Counts(mayName: Id -> bool, said: Said) {
    said.Claim? && mayName(said.author)
  }

  function Folded(keyOf: Keys, mayName: Id -> bool, log: seq<Said>): Registry {
    if log == [] then NOBODY
    else
      var before, last := Folded(keyOf, mayName, log[..|log| - 1]), log[|log| - 1];
      if Counts(mayName, last) then Bound(keyOf, before, last.author, last.name) else before
  }

  class NameRegistry {
    var byKey: map<Text, Id>
    var current: map<Id, Text>

    function State(): Registry
      reads this
    {
      Registry(byKey, current)
    }

    constructor ()
      ensures State() == NOBODY
    {
      byKey, current := map[], map[];
    }

    /// Applies one claim, and says whether it bound.
    method Apply(keyOf: Keys, author: Id, name: Text) returns (bound: bool)
      modifies this
      ensures bound == Binds(keyOf, old(State()), author, name)
      ensures State() == Bound(keyOf, old(State()), author, name)
    {
      match keyOf(name) {
        case None =>
          bound := false;
        case Some(key) =>
          if key in byKey && byKey[key] != author {
            bound := false;
          } else {
            byKey := byKey[key := author];
            current := current[author := name];
            bound := true;
          }
      }
    }

    /// Whether a name is claimable: exactly whether applying the claim would bind
    /// it, and if not then who is in the way.
    method Claimable(keyOf: Keys, author: Id, name: Text) returns (refusal: Option<NameRefusal>)
      ensures refusal.None? <==> Binds(keyOf, State(), author, name)
      ensures refusal == Some(Unusable) <==> keyOf(name).None?
      ensures refusal.Some? && refusal.value.Taken? ==>
                keyOf(name).Some? && keyOf(name).value in byKey && refusal.value.holder == byKey[keyOf(name).value]
    {
      match keyOf(name) {
        case None =>
          refusal := Some(Unusable);
        case Some(key) =>
          refusal := if key in byKey && byKey[key] != author then Some(Taken(byKey[key])) else None;
      }
    }
  }

  /// Folds a log into its registry.
  method ReplayNames(keyOf: Keys, mayName: Id -> bool, log: seq<Said>) returns (names: NameRegistry)
    ensures fresh(names) && names.State() == Folded(keyOf, mayName, log)
  {
    names := new NameRegistry();
    for k := 0 to |log|
      invariant fresh(names) && names.State() == Folded(keyOf, mayName, log[..k])
    {
      assert log[..k + 1][..k] == log[..k];
      if Counts(mayName, log[k]) {
        var _ := names.Apply(keyOf, log[k].author, log[k].name);
      }
    }
    assert log[..|log|] == log;
  }

  // ------------------------------------------------------------------------
  // First claim wins
  // ------------------------------------------------------------------------

  /// A claim that a replay looks at, on this key.
  predicate On(keyOf: Keys, mayName: Id -> bool, said: Said, key: Text) {
    Counts(mayName, said) && keyOf(said.name) == Some(key)
  }

  /// A key is held exactly where some counted claim is on it, and by the author
  /// of the first such claim.
  lemma {:induction false} FirstClaimHolds(keyOf: Keys, mayName: Id -> bool, log: seq<Said>, key: Text)
    ensures var names := Folded(keyOf, mayName, log);
            && (key in names.byKey <==> exists k :: 0 <= k < |log| && On(keyOf, mayName, log[k], key))
            && (forall k :: 0 <= k < |log| && On(keyOf, mayName, log[k], key)
                  && (forall j :: 0 <= j < k ==> !On(keyOf, mayName, log[j], key))
                  ==> key in names.byKey && names.byKey[key] == log[k].author)
  {
    if log != [] {
      var n := |log| - 1;
      FirstClaimHolds(keyOf, mayName, log[..n], key);
      var before := Folded(keyOf, mayName, log[..n]);
      assert forall k :: 0 <= k < n ==> log[..n][k] == log[k];
      if key in before.byKey {
        var k :| 0 <= k < n && On(keyOf, mayName, log[k], key);
      }
    }
  }

  lemma {:induction false} AFirstClaim(keyOf: Keys, mayName: Id -> bool, log: seq<Said>, key: Text, k: nat)
    returns (first: nat)
    requires k < |log| && On(keyOf, mayName, log[k], key)
    ensures first <= k && On(keyOf, mayName, log[first], key)
    ensures forall j :: 0 <= j < first ==> !On(keyOf, mayName, log[j], key)
  {
    if j :| 0 <= j < k && On(keyOf, mayName, log[j], key) {
      first := AFirstClaim(keyOf, mayName, log, key, j);
    } else {
      first := k;
    }
  }

  /// Whether someone holds the key of the name they are shown under.
  predicate Holds(keyOf: Keys, names: Registry, who: Id) {
    who in names.current ==>
      keyOf(names.current[who]).Some?
      && keyOf(names.current[who]).value in names.byKey
      && names.byKey[keyOf(names.current[who]).value] == who
  }

  /// Everyone shown a name holds its key, through every log.
  lemma {:induction false} ShownNamesAreHeld(keyOf: Keys, mayName: Id -> bool, log: seq<Said>, who: Id)
    ensures Holds(keyOf, Folded(keyOf, mayName, log), who)
  {
    if log != [] {
      var before, last := Folded(keyOf, mayName, log[..|log| - 1]), log[|log| - 1];
      ShownNamesAreHeld(keyOf, mayName, log[..|log| - 1], who);
      if last.Claim? && last.author != who && who in before.current && Binds(keyOf, before, last.author, last.name) {
        assert keyOf(before.current[who]) != keyOf(last.name);
      }
    }
  }

  /// The first counted claim on a key.
  predicate FirstOn(keyOf: Keys, mayName: Id -> bool, log: seq<Said>, key: Text, k: nat) {
    k < |log| && On(keyOf, mayName, log[k], key) && forall j :: 0 <= j < k ==> !On(keyOf, mayName, log[j], key)
  }

  /// A counted claim of theirs on a usable key that nobody else claimed first.
  ghost predicate Wins(keyOf: Keys, mayName: Id -> bool, log: seq<Said>, who: Id, k: nat) {
    k < |log| && Counts(mayName, log[k]) && log[k].author == who && keyOf(log[k].name).Some?
    && forall f: nat :: f < k && FirstOn(keyOf, mayName, log, keyOf(log[k].name).value, f) ==> log[f].author == who
  }

  ghost predicate LastWin(keyOf: Keys, mayName: Id -> bool, log: seq<Said>, who: Id, k: nat) {
    Wins(keyOf, mayName, log, who, k) && forall j: nat :: k < j < |log| ==> !Wins(keyOf, mayName, log, who, j)
  }

  lemma {:induction false} WinningOfAPrefix(
      keyOf: Keys, mayName: Id -> bool, log: seq<Said>, n: nat, who: Id, k: nat)
    requires k < n <= |log|
    ensures Wins(keyOf, mayName, log[..n], who, k) <==> Wins(keyOf, mayName, log, who, k)
  {
    forall f: nat, key | f < n
      ensures FirstOn(keyOf, mayName, log[..n], key, f) <==> FirstOn(keyOf, mayName, log, key, f)
    {
      assert forall j :: 0 <= j < n ==> log[..n][j] == log[j];
    }
  }

  /// A claim binds where it wins.
  lemma {:induction false} WinningBinds(keyOf: Keys, mayName: Id -> bool, log: seq<Said>)
    requires log != [] && Counts(mayName, log[|log| - 1])
    ensures var n := |log| - 1;
            Binds(keyOf, Folded(keyOf, mayName, log[..n]), log[n].author, log[n].name)
            <==> Wins(keyOf, mayName, log, log[n].author, n)
  {
    hide Folded;
    var n := |log| - 1;
    var before := Folded(keyOf, mayName, log[..n]);
    assert forall j :: 0 <= j < n ==> log[..n][j] == log[j];
    if keyOf(log[n].name).Some? {
      var key := keyOf(log[n].name).value;
      FirstClaimHolds(keyOf, mayName, log[..n], key);
      if key in before.byKey {
        var k :| 0 <= k < n && On(keyOf, mayName, log[..n][k], key);
        var first := AFirstClaim(keyOf, mayName, log[..n], key, k);
        assert FirstOn(keyOf, mayName, log, key, first) && before.byKey[key] == log[first].author;
      }
    }
  }

  /// Somebody is shown a name exactly if some claim of theirs won, and it is the
  /// name of the last that did: a rename is shown, and a claim that lost is not.
  lemma {:induction false} ShownIsTheLastWin(keyOf: Keys, mayName: Id -> bool, log: seq<Said>, who: Id)
    ensures var shown := Folded(keyOf, mayName, log).current;
            && (who in shown <==> exists k: nat :: LastWin(keyOf, mayName, log, who, k))
            && (forall k: nat :: LastWin(keyOf, mayName, log, who, k) ==> who in shown && shown[who] == log[k].name)
  {
    hide Binds;
    if log != [] {
      var n := |log| - 1;
      var front, last := log[..n], log[n];
      ShownIsTheLastWin(keyOf, mayName, front, who);
      if Counts(mayName, last) {
        WinningBinds(keyOf, mayName, log);
      }
      hide Wins;
      forall k: nat | k < n
        ensures Wins(keyOf, mayName, front, who, k) <==> Wins(keyOf, mayName, log, who, k)
      {
        WinningOfAPrefix(keyOf, mayName, log, n, who, k);
      }
      ShownByTheLast(keyOf, mayName, log, who);
      if Wins(keyOf, mayName, log, who, n) {
        assert LastWin(keyOf, mayName, log, who, n);
      } else if k: nat :| LastWin(keyOf, mayName, front, who, k) {
        assert LastWin(keyOf, mayName, log, who, k);
      }
    }
  }

  lemma {:induction false} ShownByTheLast(keyOf: Keys, mayName: Id -> bool, log: seq<Said>, who: Id)
    requires log != []
    requires forall k: nat :: k < |log| - 1 ==>
               (Wins(keyOf, mayName, log[..|log| - 1], who, k) <==> Wins(keyOf, mayName, log, who, k))
    ensures var n := |log| - 1;
            forall k: nat :: LastWin(keyOf, mayName, log, who, k)
              <==> if Wins(keyOf, mayName, log, who, n) then k == n else LastWin(keyOf, mayName, log[..n], who, k)
  {
    var n := |log| - 1;
    WinsAreWithin(keyOf, mayName, log, who);
    WinsAreWithin(keyOf, mayName, log[..n], who);
    hide Wins;
    forall k: nat
      ensures LastWin(keyOf, mayName, log, who, k)
        <==> if Wins(keyOf, mayName, log, who, n) then k == n else LastWin(keyOf, mayName, log[..n], who, k)
    {
      if Wins(keyOf, mayName, log, who, n) {
        assert LastWin(keyOf, mayName, log, who, k) ==> k == n;
      } else if LastWin(keyOf, mayName, log[..n], who, k) {
        forall j: nat | k < j < |log| ensures !Wins(keyOf, mayName, log, who, j) {
          assert j < n ==> !Wins(keyOf, mayName, log[..n], who, j);
        }
      } else if LastWin(keyOf, mayName, log, who, k) {
        forall j: nat | k < j < n ensures !Wins(keyOf, mayName, log[..n], who, j) {
          assert !Wins(keyOf, mayName, log, who, j);
        }
      }
    }
  }

  lemma {:induction false} WinsAreWithin(keyOf: Keys, mayName: Id -> bool, log: seq<Said>, who: Id)
    ensures forall k: nat :: Wins(keyOf, mayName, log, who, k) ==>
              k < |log| && Counts(mayName, log[k]) && log[k].author == who
  {
  }

  /// Nothing said later unbinds a key or gives it to somebody else.
  lemma {:induction false} KeysNeverMove(keyOf: Keys, mayName: Id -> bool, log: seq<Said>, more: seq<Said>, key: Text)
    requires key in Folded(keyOf, mayName, log).byKey
    ensures key in Folded(keyOf, mayName, log + more).byKey
    ensures Folded(keyOf, mayName, log + more).byKey[key] == Folded(keyOf, mayName, log).byKey[key]
  {
    if more == [] {
      assert log + more == log;
    } else {
      var n := |more| - 1;
      KeysNeverMove(keyOf, mayName, log, more[..n], key);
      assert (log + more)[..|log + more| - 1] == log + more[..n];
    }
  }

  /// The right to be named is asked of the present, though. When who holds it
  /// changes, a key stays with the author of its first claim exactly if that
  /// author holds the right and no one who claimed it earlier has come to: a
  /// member who leaves gives up the name, and the next to have claimed it holds it.
  lemma {:induction false} KeysStayWithTheRight(
      keyOf: Keys, before: Id -> bool, after: Id -> bool, log: seq<Said>, key: Text, first: nat)
    requires first < |log| && On(keyOf, before, log[first], key)
    requires forall j :: 0 <= j < first ==> !On(keyOf, before, log[j], key)
    ensures var was, now := Folded(keyOf, before, log).byKey, Folded(keyOf, after, log).byKey;
            var holder := log[first].author;
            && key in was && was[key] == holder
            && (key in now && now[key] == holder
                <==> after(holder) && forall j :: 0 <= j < first ==> !On(keyOf, after, log[j], key))
  {
    FirstClaimHolds(keyOf, before, log, key);
    FirstClaimHolds(keyOf, after, log, key);
    var holder, now := log[first].author, Folded(keyOf, after, log).byKey;
    if key in now {
      var m :| 0 <= m < |log| && On(keyOf, after, log[m], key);
      var heir := AFirstClaim(keyOf, after, log, key, m);
      assert now[key] == log[heir].author && after(log[heir].author);
      if heir < first {
        assert !On(keyOf, before, log[heir], key);
      } else {
        assert forall j :: 0 <= j < first ==> !On(keyOf, after, log[j], key);
      }
    }
    if after(holder) {
      assert On(keyOf, after, log[first], key);
    }
  }

  /// Two members claim one name; the first leaves, and the second holds it.
  lemma {:induction false} LeavingGivesUpTheName(keyOf: Keys, name: Text, first: Id, second: Id)
    requires keyOf(name).Some? && first != second
    ensures var log, key := [Claim(first, name), Claim(second, name)], keyOf(name).value;
            var before, after: Id -> bool := (who: Id) => true, (who: Id) => who != first;
            && key in Folded(keyOf, before, log).byKey && Folded(keyOf, before, log).byKey[key] == first
            && key in Folded(keyOf, after, log).byKey && Folded(keyOf, after, log).byKey[key] == second
  {
    var log, key := [Claim(first, name), Claim(second, name)], keyOf(name).value;
    var before, after: Id -> bool := (who: Id) => true, (who: Id) => who != first;
    assert On(keyOf, before, log[0], key) && !On(keyOf, after, log[0], key) && On(keyOf, after, log[1], key);
    FirstClaimHolds(keyOf, before, log, key);
    FirstClaimHolds(keyOf, after, log, key);
  }
}
