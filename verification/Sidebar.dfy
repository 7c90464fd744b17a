/**
  The sidebar's default order (crates/kols-core/src/channel.rs): siblings by
  position, unpositioned last, ties by id; loose channels, then categories.
 */
module Sidebar {
  import opened Prelude

  /** What siblings are compared by. */
  datatype Sibling = Sibling(position: Option<u32>, id: Id) {
    predicate Before(other: Sibling) {
      if position.Some? != other.position.Some? then position.Some?
      else if position != other.position then position.value < other.position.value
      else id < other.id
    }
  }

  /// The comparison decides every pair of distinct siblings one way, and chains.
  lemma {:induction false} SiblingsAreTotallyOrdered(a: Sibling, b: Sibling, c: Sibling)
    ensures !a.Before(a)
    ensures a == b || (a.Before(b) <==> !b.Before(a))
    ensures a.Before(b) && b.Before(c) ==> a.Before(c)
    ensures a.position.Some? && b.position.None? ==> a.Before(b)
  {
  }

  // ------------------------------------------------------------------------
  // Sorting
  // ------------------------------------------------------------------------

  predicate Sorted(s: seq<Sibling>) {
    forall i, j :: 0 <= i < j < |s| ==> !s[j].Before(s[i])
  }

  /// A stable insertion: after everything not after it.
  function InsertSorted(s: seq<Sibling>, x: Sibling): (r: seq<Sibling>)
    ensures multiset(r) == multiset(s) + multiset{x}
  {
    if s == [] then [x]
    else
      var front, last := s[..|s| - 1], s[|s| - 1];
      assert s == front + [last];
      if x.Before(last) then InsertSorted(front, x) + [last] else s + [x]
  }

  function Sort(s: seq<Sibling>): (r: seq<Sibling>)
    ensures multiset(r) == multiset(s)
  {
    if s == [] then []
    else
      assert s == s[..|s| - 1] + [s[|s| - 1]];
      InsertSorted(Sort(s[..|s| - 1]), s[|s| - 1])
  }

  lemma {:induction false} InsertingKeepsSorted(s: seq<Sibling>, x: Sibling)
    requires Sorted(s)
    ensures Sorted(InsertSorted(s, x))
  {
    if s != [] && x.Before(s[|s| - 1]) {
      var front, last := s[..|s| - 1], s[|s| - 1];
      InsertingKeepsSorted(front, x);
      var r := InsertSorted(front, x);
      forall i | 0 <= i < |r| ensures !last.Before(r[i]) {
        assert r[i] in multiset(r);
        assert r[i] == x || r[i] in front;
      }
    }
  }

  lemma {:induction false} SortSorts(s: seq<Sibling>)
    ensures Sorted(Sort(s))
  {
    if s != [] {
      SortSorts(s[..|s| - 1]);
      InsertingKeepsSorted(Sort(s[..|s| - 1]), s[|s| - 1]);
    }
  }

  lemma {:induction false} LastIsGreatest(s: seq<Sibling>, x: Sibling)
    requires Sorted(s) && x in multiset(s)
    ensures !s[|s| - 1].Before(x)
  {
    var i :| 0 <= i < |s| && s[i] == x;
  }

  lemma {:induction false} WithoutLast(s: seq<Sibling>)
    requires s != []
    ensures multiset(s) == multiset(s[..|s| - 1]) + multiset{s[|s| - 1]}
    ensures Sorted(s) ==> Sorted(s[..|s| - 1])
    ensures s[|s| - 1] in multiset(s)
  {
    assert s == s[..|s| - 1] + [s[|s| - 1]];
  }

  lemma {:induction false} NothingIn(s: seq<Sibling>)
    requires multiset(s) == multiset{}
    ensures s == []
  {
    assert |s| == |multiset(s)|;
  }

  /// A multiset of siblings has one sorted arrangement.
  lemma {:induction false} SortedIsUnique(a: seq<Sibling>, b: seq<Sibling>)
    requires Sorted(a) && Sorted(b) && multiset(a) == multiset(b)
    ensures a == b
  {
    hide Sorted;
    if a == [] {
      NothingIn(b);
    } else if b == [] {
      NothingIn(a);
    } else {
      WithoutLast(a);
      WithoutLast(b);
      var x, y := a[|a| - 1], b[|b| - 1];
      LastIsGreatest(a, y);
      LastIsGreatest(b, x);
      SiblingsAreTotallyOrdered(x, y, x);
      assert multiset(a[..|a| - 1]) == multiset(a) - multiset{x} == multiset(b[..|b| - 1]);
      SortedIsUnique(a[..|a| - 1], b[..|b| - 1]);
      assert a == a[..|a| - 1] + [x] && b == b[..|b| - 1] + [x];
    }
  }

  lemma {:induction false} SortForgetsOrder(a: seq<Sibling>, b: seq<Sibling>)
    requires multiset(a) == multiset(b)
    ensures Sort(a) == Sort(b)
  {
    SortSorts(a);
    SortSorts(b);
    SortedIsUnique(Sort(a), Sort(b));
  }

  // ------------------------------------------------------------------------
  // Rows
  // ------------------------------------------------------------------------

  datatype SidebarChannel = SidebarChannel(id: Id, category: Option<Id>, position: Option<u32>)

  datatype SidebarCategory = SidebarCategory(id: Id, position: Option<u32>)

  datatype Row = ChannelRow(id: Id) | CategoryRow(id: Id, channels: seq<Id>)

  /// The siblings in one group: the loose channels, or a category's.
  function In(channels: seq<SidebarChannel>, group: Option<Id>): seq<Sibling> {
    if channels == [] then []
    else
      var before, last := In(channels[..|channels| - 1], group), channels[|channels| - 1];
      if last.category == group then before + [Sibling(last.position, last.id)] else before
  }

  function IdsOf(s: seq<Sibling>): (ids: seq<Id>)
    ensures |ids| == |s|
    ensures forall k :: 0 <= k < |s| ==> ids[k] == s[k].id
  {
    if s == [] then [] else IdsOf(s[..|s| - 1]) + [s[|s| - 1].id]
  }

  /// One category's channels, in order.
  function Inside(channels: seq<SidebarChannel>, category: Id): seq<Id> {
    IdsOf(Sort(In(channels, Some(category))))
  }

  function LooseRows(ids: seq<Id>): (rows: seq<Row>)
    ensures |rows| == |ids|
    ensures forall k :: 0 <= k < |ids| ==> rows[k] == ChannelRow(ids[k])
  {
    if ids == [] then [] else LooseRows(ids[..|ids| - 1]) + [ChannelRow(ids[|ids| - 1])]
  }

  function CategoryRows(channels: seq<SidebarChannel>, ordered: seq<Sibling>): (rows: seq<Row>)
    ensures |rows| == |ordered|
    ensures forall k :: 0 <= k < |ordered| ==> rows[k] == CategoryRow(ordered[k].id, Inside(channels, ordered[k].id))
  {
    if ordered == [] then []
    else
      CategoryRows(channels, ordered[..|ordered| - 1])
      + [CategoryRow(ordered[|ordered| - 1].id, Inside(channels, ordered[|ordered| - 1].id))]
  }

  function PositionsOf(categories: seq<SidebarCategory>): map<Id, Option<u32>> {
    if categories == [] then map[]
    else
      var last := categories[|categories| - 1];
      PositionsOf(categories[..|categories| - 1])[last.id := last.position]
  }

  /// A category the sidebar shows: defined, or merely named by a channel.
  predicate Shows(channels: seq<SidebarChannel>, positions: map<Id, Option<u32>>, s: Sibling) {
    (s.id in positions || In(channels, Some(s.id)) != [])
    && s.position == if s.id in positions then positions[s.id] else None
  }

  /// The categories shown, each once, in order.
  ghost predicate IsOrdered(channels: seq<SidebarChannel>, positions: map<Id, Option<u32>>, ordered: seq<Sibling>) {
    && Sorted(ordered)
    && (forall s :: multiset(ordered)[s] == if Shows(channels, positions, s) then 1 else 0)
  }

  /// What the sidebar is.
  ghost predicate IsSidebar(channels: seq<SidebarChannel>, categories: seq<SidebarCategory>, rows: seq<Row>) {
    exists ordered :: IsOrdered(channels, PositionsOf(categories), ordered)
                      && rows == LooseRows(IdsOf(Sort(In(channels, None)))) + CategoryRows(channels, ordered)
  }

  // ------------------------------------------------------------------------
  // Computing it
  // ------------------------------------------------------------------------

  lemma {:induction false} InAppend(channels: seq<SidebarChannel>, c: SidebarChannel, group: Option<Id>)
    ensures In(channels + [c], group)
            == if c.category == group then In(channels, group) + [Sibling(c.position, c.id)] else In(channels, group)
  {
    assert (channels + [c])[..|channels|] == channels;
  }

  /// The grouping pass.
  method Grouped(channels: seq<SidebarChannel>) returns (loose: seq<Sibling>, grouped: map<Id, seq<Sibling>>)
    ensures loose == In(channels, None)
    ensures forall id: Id :: In(channels, Some(id)) == if id in grouped then grouped[id] else []
    ensures forall id :: id in grouped ==> grouped[id] != []
  {
    loose, grouped := [], map[];
    ghost var done: seq<SidebarChannel> := [];
    for k := 0 to |channels|
      invariant done == channels[..k] && loose == In(done, None)
      invariant forall id: Id :: In(done, Some(id)) == if id in grouped then grouped[id] else []
      invariant forall id :: id in grouped ==> grouped[id] != []
    {
      var c := channels[k];
      forall group: Option<Id> ensures In(done + [c], group)
          == if c.category == group then In(done, group) + [Sibling(c.position, c.id)] else In(done, group)
      {
        InAppend(done, c, group);
      }
      match c.category {
        case Some(category) =>
          var inner := if category in grouped then grouped[category] else [];
          grouped := grouped[category := inner + [Sibling(c.position, c.id)]];
        case None =>
          loose := loose + [Sibling(c.position, c.id)];
      }
      done := done + [c];
    }
    assert done == channels;
  }

  /// Defined categories, the last definition standing.
  method Defined(categories: seq<SidebarCategory>) returns (positions: map<Id, Option<u32>>)
    ensures positions == PositionsOf(categories)
  {
    positions := map[];
    for k := 0 to |categories|
      invariant positions == PositionsOf(categories[..k])
    {
      assert categories[..k + 1][..k] == categories[..k];
      positions := positions[categories[k].id := categories[k].position];
    }
    assert categories[..|categories|] == categories;
  }

  /// And those only named.
  method Positioned(categories: seq<SidebarCategory>, named: set<Id>) returns (positions: map<Id, Option<u32>>)
    ensures positions.Keys == PositionsOf(categories).Keys + named
    ensures forall id :: id in positions ==>
              positions[id] == if id in PositionsOf(categories) then PositionsOf(categories)[id] else None
  {
    hide PositionsOf;
    var defined := Defined(categories);
    positions := defined;
    var rest := named;
    while rest != {}
      invariant rest <= named
      invariant forall id :: id in positions <==> id in defined || id in named - rest
      invariant forall id :: id in positions ==> positions[id] == if id in defined then defined[id] else None
      decreases |rest|
    {
      var id :| id in rest;
      if id !in positions {
        positions := positions[id := None];
      }
      rest := rest - {id};
    }
  }

  /// The map's entries, sorted; whatever order they are taken out in.
  method OrderedEntries(positions: map<Id, Option<u32>>) returns (ordered: seq<Sibling>)
    ensures Sorted(ordered)
    ensures forall s :: multiset(ordered)[s] == if s.id in positions && s.position == positions[s.id] then 1 else 0
  {
    hide Sorted;
    var entries: seq<Sibling> := [];
    var rest := positions.Keys;
    while rest != {}
      invariant rest <= positions.Keys
      invariant forall s :: multiset(entries)[s]
                            == if s.id in positions.Keys - rest && s.position == positions[s.id] then 1 else 0
      decreases |rest|
    {
      var id :| id in rest;
      entries := entries + [Sibling(positions[id], id)];
      rest := rest - {id};
    }
    ordered := Sort(entries);
    SortSorts(entries);
  }

  /// One row for each category, its channels taken out of the grouping.
  method RowsFor(channels: seq<SidebarChannel>, ordered: seq<Sibling>, grouped: map<Id, seq<Sibling>>)
    returns (rows: seq<Row>)
    requires forall id: Id :: In(channels, Some(id)) == if id in grouped then grouped[id] else []
    requires forall i, j :: 0 <= i < j < |ordered| ==> ordered[i].id != ordered[j].id
    ensures rows == CategoryRows(channels, ordered)
  {
    hide Sort, In;
    rows := [];
    var remaining := grouped;
    for k := 0 to |ordered|
      invariant rows == CategoryRows(channels, ordered[..k])
      invariant forall j :: k <= j < |ordered| ==>
                  In(channels, Some(ordered[j].id))
                  == if ordered[j].id in remaining then remaining[ordered[j].id] else []
    {
      var id := ordered[k].id;
      var inner := if id in remaining then remaining[id] else [];
      remaining := remaining - {id};
      assert ordered[..k + 1][..k] == ordered[..k];
      rows := rows + [CategoryRow(id, IdsOf(Sort(inner)))];
    }
    assert ordered[..|ordered|] == ordered;
  }

  /// The default order, as the source computes it.
  method SidebarOrder(channels: seq<SidebarChannel>, categories: seq<SidebarCategory>) returns (rows: seq<Row>)
    ensures IsSidebar(channels, categories, rows)
  {
    hide Sort, In, Sorted, PositionsOf, CategoryRows, LooseRows, IdsOf;
    var loose, grouped := Grouped(channels);
    var positions := Positioned(categories, grouped.Keys);
    var ordered := OrderedEntries(positions);
    ShownEntries(channels, PositionsOf(categories), positions, ordered, grouped);
    OneRowEach(channels, PositionsOf(categories), ordered);
    var rest := RowsFor(channels, ordered, grouped);
    rows := LooseRows(IdsOf(Sort(loose))) + rest;
  }

  lemma {:induction false} ShownEntries(
      channels: seq<SidebarChannel>, defined: map<Id, Option<u32>>, positions: map<Id, Option<u32>>,
      ordered: seq<Sibling>, grouped: map<Id, seq<Sibling>>)
    requires forall id: Id :: In(channels, Some(id)) == if id in grouped then grouped[id] else []
    requires forall id :: id in grouped ==> grouped[id] != []
    requires positions.Keys == defined.Keys + grouped.Keys
    requires forall id :: id in positions ==> positions[id] == if id in defined then defined[id] else None
    requires Sorted(ordered)
    requires forall s :: multiset(ordered)[s] == if s.id in positions && s.position == positions[s.id] then 1 else 0
    ensures IsOrdered(channels, defined, ordered)
  {
    hide In, Sorted;
    forall s ensures Shows(channels, defined, s) <==> s.id in positions && s.position == positions[s.id] {
      assert s.id in positions <==> s.id in defined || s.id in grouped;
    }
  }

  lemma {:induction false} CountedTwice(r: seq<Sibling>, i: nat, j: nat)
    requires i < j < |r| && r[i] == r[j]
    ensures multiset(r)[r[i]] >= 2
  {
    assert r == r[..i] + [r[i]] + r[i + 1..j] + [r[j]] + r[j + 1..];
  }

  lemma {:induction false} OneRowEach(
      channels: seq<SidebarChannel>, positions: map<Id, Option<u32>>, ordered: seq<Sibling>)
    requires IsOrdered(channels, positions, ordered)
    ensures forall i, j :: 0 <= i < j < |ordered| ==> ordered[i].id != ordered[j].id
  {
    hide In, Sorted;
    forall i, j | 0 <= i < j < |ordered| ensures ordered[i].id != ordered[j].id {
      assert ordered[i] in multiset(ordered) && ordered[j] in multiset(ordered);
      if ordered[i] == ordered[j] {
        CountedTwice(ordered, i, j);
      }
    }
  }

  // ------------------------------------------------------------------------
  // What the order is worth
  // ------------------------------------------------------------------------

  lemma {:induction false} InForgetsOrder(a: seq<SidebarChannel>, b: seq<SidebarChannel>, group: Option<Id>)
    requires multiset(a) == multiset(b)
    ensures multiset(In(a, group)) == multiset(In(b, group))
  {
    if a == [] {
      assert |multiset(b)| == 0;
    } else {
      var i := LastElsewhere(a, b);
      var rest := b[..i] + b[i + 1..];
      InForgetsOrder(a[..|a| - 1], rest, group);
      InSplits(b[..i], b[i], b[i + 1..], group);
      InAppend(a[..|a| - 1], a[|a| - 1], group);
      assert a == a[..|a| - 1] + [a[|a| - 1]];
    }
  }

  lemma {:induction false} InNothing(group: Option<Id>)
    ensures In([], group) == []
  {
  }

  lemma {:induction false} InConcat(a: seq<SidebarChannel>, b: seq<SidebarChannel>, group: Option<Id>)
    ensures In(a + b, group) == In(a, group) + In(b, group)
  {
    hide In;
    InNothing(group);
    if b == [] {
      assert a + b == a;
    } else {
      var n := |b| - 1;
      InConcat(a, b[..n], group);
      InAppend(a + b[..n], b[n], group);
      InAppend(b[..n], b[n], group);
      assert a + b == (a + b[..n]) + [b[n]] && b == b[..n] + [b[n]];
    }
  }

  lemma {:induction false} InSplits(
      a: seq<SidebarChannel>, x: SidebarChannel, b: seq<SidebarChannel>, group: Option<Id>)
    ensures multiset(In(a + [x] + b, group)) == multiset(In(a + b + [x], group))
  {
    InConcat(a + [x], b, group);
    InConcat(a, b, group);
    InAppend(a, x, group);
    InAppend(a + b, x, group);
  }

  lemma {:induction false} ShownIsUnique(
      a: seq<SidebarChannel>, b: seq<SidebarChannel>, positions: map<Id, Option<u32>>,
      one: seq<Sibling>, two: seq<Sibling>)
    requires multiset(a) == multiset(b)
    requires IsOrdered(a, positions, one) && IsOrdered(b, positions, two)
    ensures one == two
  {
    hide In, Sorted;
    forall s ensures Shows(a, positions, s) <==> Shows(b, positions, s) {
      InForgetsOrder(a, b, Some(s.id));
      assert |multiset(In(a, Some(s.id)))| == |multiset(In(b, Some(s.id)))|;
    }
    assert multiset(one) == multiset(two) by {
      forall s ensures multiset(one)[s] == multiset(two)[s] {}
    }
    SortedIsUnique(one, two);
  }

  lemma {:induction false} PositionsForgetOrder(a: seq<SidebarCategory>, b: seq<SidebarCategory>)
    requires multiset(a) == multiset(b)
    requires forall x, y :: x in a && y in a && x.id == y.id ==> x == y
    ensures PositionsOf(a) == PositionsOf(b)
  {
    forall s ensures s in a <==> s in b {
      assert s in multiset(a) <==> s in multiset(b);
    }
    PositionsMean(a);
    PositionsMean(b);
  }

  lemma {:induction false} PositionsMean(a: seq<SidebarCategory>)
    requires forall x, y :: x in a && y in a && x.id == y.id ==> x == y
    ensures forall id: Id :: id in PositionsOf(a) <==> exists x :: x in a && x.id == id
    ensures forall x :: x in a ==> x.id in PositionsOf(a) && PositionsOf(a)[x.id] == x.position
  {
    if a != [] {
      PositionsMean(a[..|a| - 1]);
      assert a == a[..|a| - 1] + [a[|a| - 1]];
    }
  }

  /// Every reader draws the same sidebar, whatever order the channels and
  /// categories reach it in, ties and undefined categories included.
  lemma {:induction false} SidebarsAgree(
      channels: seq<SidebarChannel>, categories: seq<SidebarCategory>, rows: seq<Row>,
      channels': seq<SidebarChannel>, categories': seq<SidebarCategory>, rows': seq<Row>)
    requires multiset(channels) == multiset(channels') && multiset(categories) == multiset(categories')
    requires forall x, y :: x in categories && y in categories && x.id == y.id ==> x == y
    requires IsSidebar(channels, categories, rows) && IsSidebar(channels', categories', rows')
    ensures rows == rows'
  {
    hide In, Sort, PositionsOf, IsOrdered;
    PositionsForgetOrder(categories, categories');
    var positions := PositionsOf(categories);
    var one: seq<Sibling> :| IsOrdered(channels, positions, one)
               && rows == LooseRows(IdsOf(Sort(In(channels, None)))) + CategoryRows(channels, one);
    var two: seq<Sibling> :| IsOrdered(channels', positions, two)
               && rows' == LooseRows(IdsOf(Sort(In(channels', None)))) + CategoryRows(channels', two);
    ShownIsUnique(channels, channels', positions, one, two);
    InForgetsOrder(channels, channels', None);
    SortForgetsOrder(In(channels, None), In(channels', None));
    forall k | 0 <= k < |one|
      ensures CategoryRows(channels, one)[k] == CategoryRows(channels', one)[k]
    {
      InForgetsOrder(channels, channels', Some(one[k].id));
      SortForgetsOrder(In(channels, Some(one[k].id)), In(channels', Some(one[k].id)));
    }
    assert CategoryRows(channels, one) == CategoryRows(channels', one);
  }

  lemma {:induction false} InMembers(channels: seq<SidebarChannel>, group: Option<Id>)
    ensures forall s :: s in In(channels, group) <==>
              exists c :: c in channels && c.category == group && s == Sibling(c.position, c.id)
  {
    if channels != [] {
      InMembers(channels[..|channels| - 1], group);
      assert channels == channels[..|channels| - 1] + [channels[|channels| - 1]];
    }
  }

  predicate IsDefined(categories: seq<SidebarCategory>, id: Id) {
    exists c :: c in categories && c.id == id
  }

  /// Some channel sits in it.
  predicate IsNamed(channels: seq<SidebarChannel>, id: Id) {
    exists c :: c in channels && c.category == Some(id)
  }

  predicate HasRow(rows: seq<Row>, id: Id) {
    exists k :: 0 <= k < |rows| && rows[k].CategoryRow? && rows[k].id == id
  }

  lemma {:induction false} PositionsAreOfTheDefined(categories: seq<SidebarCategory>, id: Id)
    ensures id in PositionsOf(categories) <==> IsDefined(categories, id)
  {
    if categories != [] {
      var n := |categories| - 1;
      PositionsAreOfTheDefined(categories[..n], id);
      assert categories == categories[..n] + [categories[n]];
      if IsDefined(categories[..n], id) {
        var c :| c in categories[..n] && c.id == id;
        assert c in categories;
      }
    }
  }

  lemma {:induction false} NamedHasMembers(channels: seq<SidebarChannel>, id: Id)
    ensures In(channels, Some(id)) != [] <==> IsNamed(channels, id)
  {
    hide In;
    InMembers(channels, Some(id));
    var group := In(channels, Some(id));
    if group != [] {
      assert group[0] in group;
    }
    if IsNamed(channels, id) {
      var c :| c in channels && c.category == Some(id);
      assert Sibling(c.position, c.id) in group;
    }
  }

  lemma {:induction false} ShownAreDefinedOrNamed(
      channels: seq<SidebarChannel>, categories: seq<SidebarCategory>, ordered: seq<Sibling>, id: Id)
    requires IsOrdered(channels, PositionsOf(categories), ordered)
    ensures (exists k :: 0 <= k < |ordered| && ordered[k].id == id)
            <==> IsDefined(categories, id) || IsNamed(channels, id)
  {
    hide In, PositionsOf, Sorted, IsDefined, IsNamed;
    var positions := PositionsOf(categories);
    PositionsAreOfTheDefined(categories, id);
    NamedHasMembers(channels, id);
    if IsDefined(categories, id) || IsNamed(channels, id) {
      var shown := Sibling(if id in positions then positions[id] else None, id);
      assert Shows(channels, positions, shown);
      assert shown in multiset(ordered);
      var k :| 0 <= k < |ordered| && ordered[k] == shown;
    }
    forall k | 0 <= k < |ordered| && ordered[k].id == id ensures IsDefined(categories, id) || IsNamed(channels, id) {
      assert ordered[k] in multiset(ordered);
    }
  }

  lemma {:induction false} RowsAreShown(
      channels: seq<SidebarChannel>, loose: seq<Id>, ordered: seq<Sibling>, id: Id)
    ensures HasRow(LooseRows(loose) + CategoryRows(channels, ordered), id)
            <==> exists k :: 0 <= k < |ordered| && ordered[k].id == id
  {
    hide LooseRows, CategoryRows;
    var rows := LooseRows(loose) + CategoryRows(channels, ordered);
    if k :| 0 <= k < |ordered| && ordered[k].id == id {
      assert rows[|loose| + k] == CategoryRow(ordered[k].id, Inside(channels, ordered[k].id));
    }
    if k :| 0 <= k < |rows| && rows[k].CategoryRow? && rows[k].id == id {
      if k >= |loose| {
        assert rows[k] == CategoryRow(ordered[k - |loose|].id, Inside(channels, ordered[k - |loose|].id));
      }
    }
  }

  /// Each channel is in its own group's list and in no other, each category that is
  /// defined or named by a channel has one row and no other has any, and every
  /// loose channel is above every category.
  lemma {:induction false} EveryChannelHasItsPlace(
      channels: seq<SidebarChannel>, categories: seq<SidebarCategory>, rows: seq<Row>)
    requires IsSidebar(channels, categories, rows)
    ensures forall i, j :: 0 <= i < j < |rows| && rows[j].ChannelRow? ==> rows[i].ChannelRow?
    ensures forall i, j :: 0 <= i < j < |rows| && rows[i].CategoryRow? && rows[j].CategoryRow? ==>
              rows[i].id != rows[j].id
    ensures forall id: Id :: HasRow(rows, id) <==> IsDefined(categories, id) || IsNamed(channels, id)
    ensures forall c :: c in channels ==>
              (c.category.None? ==> ChannelRow(c.id) in rows)
              && (c.category.Some? ==>
                    exists k :: 0 <= k < |rows| && rows[k].CategoryRow? && rows[k].id == c.category.value
                                && c.id in rows[k].channels)
    ensures forall k :: 0 <= k < |rows| ==>
              (rows[k].ChannelRow? ==> exists c :: c in channels && c.category.None? && c.id == rows[k].id)
    ensures forall k, id :: 0 <= k < |rows| && rows[k].CategoryRow? && id in rows[k].channels ==>
              exists c :: c in channels && c.category == Some(rows[k].id) && c.id == id
  {
    hide In, Sort, PositionsOf, Sorted, CategoryRows, LooseRows, IdsOf, HasRow, IsDefined, IsNamed;
    var ordered: seq<Sibling> :| IsOrdered(channels, PositionsOf(categories), ordered)
                   && rows == LooseRows(IdsOf(Sort(In(channels, None)))) + CategoryRows(channels, ordered);
    var loose := Sort(In(channels, None));
    forall k | 0 <= k < |loose| ensures exists c :: c in channels && c.category.None? && c.id == rows[k].id {
      FromItsGroup(channels, None, loose[k]);
    }
    OneRowEach(channels, PositionsOf(categories), ordered);
    forall id: Id ensures HasRow(rows, id) <==> IsDefined(categories, id) || IsNamed(channels, id) {
      ShownAreDefinedOrNamed(channels, categories, ordered, id);
      RowsAreShown(channels, IdsOf(loose), ordered, id);
    }
    forall c | c in channels
      ensures c.category.None? ==> ChannelRow(c.id) in rows
      ensures c.category.Some? ==>
                exists k :: 0 <= k < |rows| && rows[k].CategoryRow? && rows[k].id == c.category.value
                            && c.id in rows[k].channels
    {
      PlaceOf(channels, categories, rows, ordered, c);
    }
    forall k, id | 0 <= k < |rows| && rows[k].CategoryRow? && id in rows[k].channels
      ensures exists c :: c in channels && c.category == Some(rows[k].id) && c.id == id
    {
      var inner := Sort(In(channels, Some(rows[k].id)));
      assert rows[k] == CategoryRow(rows[k].id, IdsOf(inner));
      var j :| 0 <= j < |inner| && IdsOf(inner)[j] == id;
      FromItsGroup(channels, Some(rows[k].id), inner[j]);
    }
  }

  lemma {:induction false} FromItsGroup(channels: seq<SidebarChannel>, group: Option<Id>, s: Sibling)
    requires s in Sort(In(channels, group))
    ensures exists c :: c in channels && c.category == group && c.id == s.id
  {
    hide In, Sort;
    InMembers(channels, group);
    SortedMembers(In(channels, group));
  }

  lemma {:induction false} SortedMembers(s: seq<Sibling>)
    ensures forall x :: x in Sort(s) <==> x in s
  {
    forall x ensures x in Sort(s) <==> x in s {
      assert x in multiset(Sort(s)) <==> x in multiset(s);
    }
  }

  lemma {:induction false} PlaceOf(
      channels: seq<SidebarChannel>, categories: seq<SidebarCategory>, rows: seq<Row>, ordered: seq<Sibling>,
      c: SidebarChannel)
    requires IsOrdered(channels, PositionsOf(categories), ordered) && c in channels
    requires rows == LooseRows(IdsOf(Sort(In(channels, None)))) + CategoryRows(channels, ordered)
    ensures c.category.None? ==> ChannelRow(c.id) in rows
    ensures c.category.Some? ==>
              exists k :: 0 <= k < |rows| && rows[k].CategoryRow? && rows[k].id == c.category.value
                          && c.id in rows[k].channels
  {
    hide In, Sort, PositionsOf, Sorted, CategoryRows, LooseRows, IdsOf;
    var loose := Sort(In(channels, None));
    InMembers(channels, c.category);
    SortedMembers(In(channels, c.category));
    var s := Sibling(c.position, c.id);
    assert s in In(channels, c.category);
    match c.category {
      case None =>
        var k :| 0 <= k < |loose| && loose[k] == s;
        assert rows[k] == ChannelRow(c.id);
      case Some(category) =>
        var positions := PositionsOf(categories);
        var shown := Sibling(if category in positions then positions[category] else None, category);
        assert Shows(channels, positions, shown);
        assert shown in multiset(ordered);
        var k :| 0 <= k < |ordered| && ordered[k] == shown;
        var inner := Sort(In(channels, Some(category)));
        var j :| 0 <= j < |inner| && inner[j] == s;
        assert IdsOf(inner)[j] == c.id;
        assert rows[|loose| + k] == CategoryRow(category, IdsOf(inner));
    }
  }

  lemma {:induction false} GroupsHoldOnce(channels: seq<SidebarChannel>, group: Option<Id>)
    requires forall i, j :: 0 <= i < j < |channels| ==> channels[i].id != channels[j].id
    ensures forall s :: multiset(In(channels, group))[s] <= 1
    ensures forall s, t :: s in In(channels, group) && t in In(channels, group) && s.id == t.id ==> s == t
  {
    if channels != [] {
      var n := |channels| - 1;
      var front, last := channels[..n], channels[n];
      GroupsHoldOnce(front, group);
      InMembers(front, group);
      forall s | s in In(front, group) ensures s.id != last.id {
        var c :| c in front && c.category == group && s == Sibling(c.position, c.id);
        var i :| 0 <= i < n && channels[i] == c;
      }
    }
  }

  predicate NoRepeats(s: seq<Sibling>) {
    forall i, j :: 0 <= i < j < |s| ==> s[i].id != s[j].id
  }

  lemma {:induction false} SortedHoldOnce(channels: seq<SidebarChannel>, group: Option<Id>)
    requires forall i, j :: 0 <= i < j < |channels| ==> channels[i].id != channels[j].id
    ensures NoRepeats(Sort(In(channels, group)))
  {
    hide In, Sort;
    GroupsHoldOnce(channels, group);
    SortedMembers(In(channels, group));
    var s := Sort(In(channels, group));
    forall i, j | 0 <= i < j < |s| ensures s[i].id != s[j].id {
      if s[i] == s[j] {
        CountedTwice(s, i, j);
      }
    }
  }

  /// And with distinct ids, no channel is drawn twice.
  lemma {:induction false} NoChannelTwice(
      channels: seq<SidebarChannel>, categories: seq<SidebarCategory>, rows: seq<Row>)
    requires IsSidebar(channels, categories, rows)
    requires forall i, j :: 0 <= i < j < |channels| ==> channels[i].id != channels[j].id
    ensures forall i, j :: 0 <= i < j < |rows| && rows[i].ChannelRow? && rows[j].ChannelRow? ==>
              rows[i].id != rows[j].id
    ensures forall k, i, j :: 0 <= k < |rows| && rows[k].CategoryRow? && 0 <= i < j < |rows[k].channels|
              ==> rows[k].channels[i] != rows[k].channels[j]
  {
    hide In, Sort, PositionsOf, Sorted, CategoryRows, LooseRows, IdsOf;
    var ordered: seq<Sibling> :| IsOrdered(channels, PositionsOf(categories), ordered)
                   && rows == LooseRows(IdsOf(Sort(In(channels, None)))) + CategoryRows(channels, ordered);
    SortedHoldOnce(channels, None);
    var loose := Sort(In(channels, None));
    assert NoRepeats(loose);
    assert forall k :: 0 <= k < |loose| ==> rows[k] == ChannelRow(loose[k].id);
    assert forall k :: |loose| <= k < |rows| ==> rows[k] == CategoryRows(channels, ordered)[k - |loose|];
    forall i, j | 0 <= i < j < |rows| && rows[i].ChannelRow? && rows[j].ChannelRow? ensures rows[i].id != rows[j].id {
      assert i < j < |loose|;
      assert rows[j] == ChannelRow(loose[j].id) && rows[i] == ChannelRow(loose[i].id);
    }
    forall k | 0 <= k < |rows| && rows[k].CategoryRow?
      ensures forall i, j :: 0 <= i < j < |rows[k].channels| ==> rows[k].channels[i] != rows[k].channels[j]
    {
      SortedHoldOnce(channels, Some(rows[k].id));
      assert rows[k] == CategoryRow(rows[k].id, IdsOf(Sort(In(channels, Some(rows[k].id)))));
    }
  }

  // ------------------------------------------------------------------------
  // In order
  // ------------------------------------------------------------------------

  /// Lower position first, unpositioned last, ties by id.
  predicate Precedes(p: Option<u32>, a: Id, q: Option<u32>, b: Id) {
    || (p.Some? && q.None?)
    || (p.Some? && q.Some? && p.value < q.value)
    || (p == q && a < b)
  }

  /// The position a category has: its last definition's, or none.
  ghost predicate Stands(categories: seq<SidebarCategory>, id: Id, p: Option<u32>) {
    || (!IsDefined(categories, id) && p.None?)
    || exists k :: 0 <= k < |categories| && categories[k] == SidebarCategory(id, p)
                   && forall j :: k < j < |categories| ==> categories[j].id != id
  }

  ghost predicate LooseInOrder(channels: seq<SidebarChannel>, rows: seq<Row>) {
    forall i, j, c, d :: 0 <= i < j < |rows| && c in channels && d in channels
        && rows[i] == ChannelRow(c.id) && rows[j] == ChannelRow(d.id)
        ==> Precedes(c.position, c.id, d.position, d.id)
  }

  ghost predicate InsideInOrder(channels: seq<SidebarChannel>, ids: seq<Id>) {
    forall i, j, c, d :: 0 <= i < j < |ids| && c in channels && d in channels && ids[i] == c.id && ids[j] == d.id
        ==> Precedes(c.position, c.id, d.position, d.id)
  }

  ghost predicate CategoriesInOrder(categories: seq<SidebarCategory>, rows: seq<Row>) {
    forall i, j, p, q :: 0 <= i < j < |rows| && rows[i].CategoryRow? && rows[j].CategoryRow?
        && Stands(categories, rows[i].id, p) && Stands(categories, rows[j].id, q)
        ==> Precedes(p, rows[i].id, q, rows[j].id)
  }

  lemma {:induction false} BeforeIsPreceding(a: Sibling, b: Sibling)
    ensures a.Before(b) <==> Precedes(a.position, a.id, b.position, b.id)
  {
  }

  lemma {:induction false} PositionsStand(categories: seq<SidebarCategory>, id: Id, p: Option<u32>)
    ensures Stands(categories, id, p)
            <==> p == if id in PositionsOf(categories) then PositionsOf(categories)[id] else None
  {
    hide Stands, IsDefined;
    if categories == [] {
      NothingStands(id, p);
    } else {
      var n := |categories| - 1;
      PositionsStand(categories[..n], id, p);
      if categories[n].id == id {
        LastStands(categories, p);
      } else {
        StandsBefore(categories, id, p);
      }
    }
  }

  lemma {:induction false} NothingStands(id: Id, p: Option<u32>)
    ensures Stands([], id, p) <==> p.None?
  {
  }

  lemma {:induction false} LastStands(categories: seq<SidebarCategory>, p: Option<u32>)
    requires categories != []
    ensures var last := categories[|categories| - 1]; Stands(categories, last.id, p) <==> p == last.position
  {
    var last := categories[|categories| - 1];
    DefinedByTheLast(categories);
    hide IsDefined;
    if last.position == p {
      assert categories[|categories| - 1] == SidebarCategory(last.id, p);
    }
  }

  lemma {:induction false} StandsBefore(categories: seq<SidebarCategory>, id: Id, p: Option<u32>)
    requires categories != [] && categories[|categories| - 1].id != id
    ensures Stands(categories, id, p) <==> Stands(categories[..|categories| - 1], id, p)
  {
    var n := |categories| - 1;
    var front := categories[..n];
    DefinedBefore(categories, id);
    hide IsDefined;
    if k :| 0 <= k < n && front[k] == SidebarCategory(id, p) && forall j :: k < j < n ==> front[j].id != id {
      assert categories[k] == SidebarCategory(id, p);
      forall j | k < j < |categories| ensures categories[j].id != id {
        assert j < n ==> categories[j] == front[j];
      }
    }
    if k :| 0 <= k < |categories| && categories[k] == SidebarCategory(id, p)
            && forall j :: k < j < |categories| ==> categories[j].id != id {
      assert k < n && front[k] == SidebarCategory(id, p);
      forall j | k < j < n ensures front[j].id != id {
        assert front[j] == categories[j];
      }
    }
  }

  lemma {:induction false} DefinedByTheLast(categories: seq<SidebarCategory>)
    requires categories != []
    ensures IsDefined(categories, categories[|categories| - 1].id)
  {
  }

  lemma {:induction false} DefinedBefore(categories: seq<SidebarCategory>, id: Id)
    requires categories != [] && categories[|categories| - 1].id != id
    ensures IsDefined(categories[..|categories| - 1], id) <==> IsDefined(categories, id)
  {
    var n := |categories| - 1;
    assert categories == categories[..n] + [categories[n]];
    if IsDefined(categories[..n], id) {
      var c :| c in categories[..n] && c.id == id;
      assert c in categories;
    }
  }

  /// One group's sorted list, told by the channels it lists.
  lemma {:induction false} GroupIsInOrder(
      channels: seq<SidebarChannel>, group: Option<Id>, i: nat, j: nat, c: SidebarChannel, d: SidebarChannel)
    requires forall i, j :: 0 <= i < j < |channels| ==> channels[i].id != channels[j].id
    requires i < j < |Sort(In(channels, group))| && c in channels && d in channels
    requires Sort(In(channels, group))[i].id == c.id && Sort(In(channels, group))[j].id == d.id
    ensures Precedes(c.position, c.id, d.position, d.id)
  {
    hide In, Sort;
    var s := Sort(In(channels, group));
    SortSorts(In(channels, group));
    SortedHoldOnce(channels, group);
    SiblingIsTheChannel(channels, group, s[i], c);
    SiblingIsTheChannel(channels, group, s[j], d);
    assert !s[j].Before(s[i]) && s[i] != s[j];
    SiblingsAreTotallyOrdered(s[i], s[j], s[i]);
    BeforeIsPreceding(s[i], s[j]);
  }

  lemma {:induction false} SiblingIsTheChannel(
      channels: seq<SidebarChannel>, group: Option<Id>, s: Sibling, c: SidebarChannel)
    requires forall i, j :: 0 <= i < j < |channels| ==> channels[i].id != channels[j].id
    requires s in Sort(In(channels, group)) && c in channels && s.id == c.id
    ensures s.position == c.position
  {
    hide In, Sort;
    InMembers(channels, group);
    SortedMembers(In(channels, group));
    var d :| d in channels && d.category == group && s == Sibling(d.position, d.id);
    var i :| 0 <= i < |channels| && channels[i] == c;
    var j :| 0 <= j < |channels| && channels[j] == d;
  }

  lemma {:induction false} CategoriesAreInOrder(
      channels: seq<SidebarChannel>, categories: seq<SidebarCategory>, ordered: seq<Sibling>, i: nat, j: nat,
      p: Option<u32>, q: Option<u32>)
    requires IsOrdered(channels, PositionsOf(categories), ordered) && i < j < |ordered|
    requires Stands(categories, ordered[i].id, p) && Stands(categories, ordered[j].id, q)
    ensures Precedes(p, ordered[i].id, q, ordered[j].id)
  {
    hide In, PositionsOf, Stands;
    OneRowEach(channels, PositionsOf(categories), ordered);
    PositionsStand(categories, ordered[i].id, p);
    PositionsStand(categories, ordered[j].id, q);
    assert ordered[i] in multiset(ordered) && ordered[j] in multiset(ordered);
    assert ordered[i].position == p && ordered[j].position == q;
    SiblingsAreTotallyOrdered(ordered[i], ordered[j], ordered[i]);
    BeforeIsPreceding(ordered[i], ordered[j]);
  }

  /// Of two loose channels, two channels of one category, or two categories, the
  /// one of lower position is above; the unpositioned and the undefined are below
  /// all of those; and ties go by id.
  lemma {:induction false} SidebarIsInOrder(
      channels: seq<SidebarChannel>, categories: seq<SidebarCategory>, rows: seq<Row>)
    requires IsSidebar(channels, categories, rows)
    requires forall i, j :: 0 <= i < j < |channels| ==> channels[i].id != channels[j].id
    ensures LooseInOrder(channels, rows)
    ensures forall k :: 0 <= k < |rows| && rows[k].CategoryRow? ==> InsideInOrder(channels, rows[k].channels)
    ensures CategoriesInOrder(categories, rows)
  {
    hide In, Sort, PositionsOf, Sorted, CategoryRows, LooseRows, IdsOf, IsOrdered, Precedes, Stands;
    var ordered: seq<Sibling> :| IsOrdered(channels, PositionsOf(categories), ordered)
                   && rows == LooseRows(IdsOf(Sort(In(channels, None)))) + CategoryRows(channels, ordered);
    var loose := Sort(In(channels, None));
    assert forall k :: 0 <= k < |loose| ==> rows[k] == ChannelRow(loose[k].id);
    assert forall k :: |loose| <= k < |rows| ==> rows[k] == CategoryRows(channels, ordered)[k - |loose|];
    forall i, j, c, d | 0 <= i < j < |rows| && c in channels && d in channels
                        && rows[i] == ChannelRow(c.id) && rows[j] == ChannelRow(d.id)
      ensures Precedes(c.position, c.id, d.position, d.id)
    {
      assert j < |loose| && loose[i].id == c.id && loose[j].id == d.id;
      GroupIsInOrder(channels, None, i, j, c, d);
    }
    forall k | 0 <= k < |rows| && rows[k].CategoryRow? ensures InsideInOrder(channels, rows[k].channels) {
      assert rows[k] == CategoryRow(rows[k].id, IdsOf(Sort(In(channels, Some(rows[k].id)))));
      InsideIsInOrder(channels, rows[k].id);
    }
    forall i, j, p, q | 0 <= i < j < |rows| && rows[i].CategoryRow? && rows[j].CategoryRow?
                        && Stands(categories, rows[i].id, p) && Stands(categories, rows[j].id, q)
      ensures Precedes(p, rows[i].id, q, rows[j].id)
    {
      assert i >= |loose|;
      CategoriesAreInOrder(channels, categories, ordered, i - |loose|, j - |loose|, p, q);
    }
  }

  lemma {:induction false} InsideIsInOrder(channels: seq<SidebarChannel>, category: Id)
    requires forall i, j :: 0 <= i < j < |channels| ==> channels[i].id != channels[j].id
    ensures InsideInOrder(channels, IdsOf(Sort(In(channels, Some(category)))))
  {
    hide In, Sort, IdsOf, Precedes;
    var s := Sort(In(channels, Some(category)));
    var ids := IdsOf(s);
    forall i, j, c, d | 0 <= i < j < |ids| && c in channels && d in channels && ids[i] == c.id && ids[j] == d.id
      ensures Precedes(c.position, c.id, d.position, d.id)
    {
      GroupIsInOrder(channels, Some(category), i, j, c, d);
    }
  }
}
