/**
  A channel's history, merged from every log that contributes to it
  (crates/kols-core/src/view.rs). The view collects records in any order and
  renders them in two passes; what it holds and what it shows are `Records` and
  `Render` facts about a set of records.
 */
module View {
  import opened Prelude
  import opened Records
  import opened Limits
  import opened Render

  datatype Placement = Placement(channel: Id, category: Option<Id>)

  /** What a reader knows about identities, and whether a signature verifies. */
  datatype Authority = Authority(
    verifies: Record -> bool,
    isMember: Id -> bool,
    mayPost: (Id, Placement) -> bool,
    mayModerateAt: (Id, Placement, Id) -> bool,
    mayModerateNow: (Id, Placement) -> bool)

  /// Why one record, on its own, may not affect anything.
  function Check(r: Record, placement: Placement, authority: Authority, limits: ReaderLimits): Option<Rejection> {
    if r.channel != placement.channel then Some(WrongChannel)
    else if !authority.verifies(r) then Some(BadSignature)
    else if !authority.isMember(r.author) then Some(NotAMember)
    else if !WithinBounds(r.body, limits.messageMaxBytes) then Some(TooLarge)
    else
      match r.body
      case Redaction(_, head) =>
        if authority.mayModerateAt(r.author, placement, head) then None else Some(NotAModerator)
      case Pin(_, _) =>
        if authority.mayModerateNow(r.author, placement) then None else Some(NotAModerator)
      case _ =>
        if authority.mayPost(r.author, placement) then None else Some(NotPermitted)
  }

  /// Each bound by the kind it is on, in bytes.
  ghost predicate Fits(body: Body, messageMaxBytes: nat) {
    && (body.Message? ==> |body.text| <= messageMaxBytes && forall a :: a in body.attachments ==> |a.name| <= 255)
    && (body.Edit? ==> |body.text| <= messageMaxBytes)
    && (body.Reaction? ==> |body.key| <= 64)
  }

  /// The right its kind needs: moderation at the cited head for a redaction,
  /// moderation now for a pin, posting for everything else, the unknown included.
  ghost predicate Entitled(r: Record, placement: Placement, authority: Authority) {
    && (r.body.Redaction? ==> authority.mayModerateAt(r.author, placement, r.body.governanceHead))
    && (r.body.Pin? ==> authority.mayModerateNow(r.author, placement))
    && (!r.body.Redaction? && !r.body.Pin? ==> authority.mayPost(r.author, placement))
  }

  /// What a reader asks of a record before it may affect anything.
  ghost predicate Admissible(r: Record, placement: Placement, authority: Authority, limits: ReaderLimits) {
    && r.channel == placement.channel
    && authority.verifies(r)
    && authority.isMember(r.author)
    && Fits(r.body, limits.messageMaxBytes)
    && Entitled(r, placement, authority)
  }

  /// The first of those it fails, by the name it is listed under.
  ghost predicate FailsBy(
      why: Rejection, r: Record, placement: Placement, authority: Authority, limits: ReaderLimits)
  {
    match why
    case WrongChannel => r.channel != placement.channel
    case BadSignature => r.channel == placement.channel && !authority.verifies(r)
    case NotAMember => r.channel == placement.channel && authority.verifies(r) && !authority.isMember(r.author)
    case TooLarge =>
      r.channel == placement.channel && authority.verifies(r) && authority.isMember(r.author)
      && !Fits(r.body, limits.messageMaxBytes)
    case NotAModerator =>
      r.channel == placement.channel && authority.verifies(r) && authority.isMember(r.author)
      && Fits(r.body, limits.messageMaxBytes) && (r.body.Redaction? || r.body.Pin?)
      && !Entitled(r, placement, authority)
    case NotPermitted =>
      r.channel == placement.channel && authority.verifies(r) && authority.isMember(r.author)
      && Fits(r.body, limits.messageMaxBytes) && !r.body.Redaction? && !r.body.Pin?
      && !Entitled(r, placement, authority)
    case _ => false
  }

  lemma {:induction false} CheckMeans(r: Record, placement: Placement, authority: Authority, limits: ReaderLimits)
    ensures Check(r, placement, authority, limits).None? <==> Admissible(r, placement, authority, limits)
    ensures forall why :: Check(r, placement, authority, limits) == Some(why)
                          <==> FailsBy(why, r, placement, authority, limits)
  {
    if r.body.Message? {
      var files := r.body.attachments;
      assert forall a :: a in files <==> exists k :: 0 <= k < |files| && files[k] == a;
      assert (forall a :: a in files ==> |a.name| <= 255) <==> forall k :: 0 <= k < |files| ==> |files[k].name| <= 255;
    }
  }

  function Passes(placement: Placement, authority: Authority, limits: ReaderLimits): Record -> bool {
    (r: Record) => Check(r, placement, authority, limits).None?
  }

  /// The records of a delivery that pass, in the order delivered.
  function Accepted(rs: seq<Record>, placement: Placement, authority: Authority, limits: ReaderLimits): seq<Record> {
    Filter(rs, Passes(placement, authority, limits))
  }

  /// The others, with why.
  function Refused(
      rs: seq<Record>, placement: Placement, authority: Authority, limits: ReaderLimits): seq<(Id, Rejection)> {
    if rs == [] then []
    else
      var before, r := Refused(rs[..|rs| - 1], placement, authority, limits), rs[|rs| - 1];
      match Check(r, placement, authority, limits)
      case None => before
      case Some(why) => before + [(r.id, why)]
  }

  /// What a view held, and of a delivery what is admissible.
  ghost predicate HoldsJust(
      after: seq<Record>, before: seq<Record>, rs: seq<Record>, placement: Placement, authority: Authority,
      limits: ReaderLimits)
  {
    forall r :: r in after <==> r in before || (r in rs && Admissible(r, placement, authority, limits))
  }

  /// What it had listed, and of a delivery everything else, once, by what it fails.
  ghost predicate ListsJust(
      after: seq<(Id, Rejection)>, before: seq<(Id, Rejection)>, rs: seq<Record>, placement: Placement,
      authority: Authority, limits: ReaderLimits)
  {
    && before <= after
    && (forall id, why :: (id, why) in after
          <==> (id, why) in before
               || exists r :: r in rs && r.id == id && FailsBy(why, r, placement, authority, limits))
    && |after| - |before| == |rs| - |Accepted(rs, placement, authority, limits)|
  }

  /// What a rendering leaves out: the refused, and whatever is held right now.
  function Hidden(limits: ReaderLimits, now: i64, refused: set<Id>): Record -> bool {
    (r: Record) => r.id in refused || IsHeld(r, limits, now)
  }

  class ChannelView {
    const placement: Placement
    /// Keyed and ordered by cursor, so in merge order.
    var records: seq<Record>
    var rejected: seq<(Id, Rejection)>

    ghost predicate Valid()
      reads this
    {
      Ascending(records) && FaithfulIds(records)
    }

    constructor (placement: Placement)
      ensures Valid() && this.placement == placement && records == [] && rejected == []
    {
      this.placement := placement;
      records, rejected := [], [];
    }

    /// One delivery: what passes the check is merged in, the rest is listed with why.
    method Admit(rs: seq<Record>, authority: Authority, limits: ReaderLimits)
      requires Valid() && FaithfulIds(records + rs)
      modifies this
      ensures Valid()
      ensures records == InsertAll(old(records), Accepted(rs, placement, authority, limits))
      ensures rejected == old(rejected) + Refused(rs, placement, authority, limits)
      ensures HoldsJust(records, old(records), rs, placement, authority, limits)
      ensures ListsJust(rejected, old(rejected), rs, placement, authority, limits)
    {
      ghost var before := records;
      ghost var done: seq<Record> := [];
      assert Accepted([], placement, authority, limits) == [];
      hide Accepted, Check, Ascending, FaithfulIds, Refused, Admissible, FailsBy, Insert, InsertAll,
           HoldsJust, ListsJust;
      NothingRefused(placement, authority, limits);
      for k := 0 to |rs|
        invariant done == rs[..k] && Ascending(before)
        invariant records == InsertAll(before, Accepted(done, placement, authority, limits))
        invariant rejected == old(rejected) + Refused(done, placement, authority, limits)
      {
        var record := rs[k];
        AdmitStep(before, done, record, placement, authority, limits);
        match Check(record, placement, authority, limits) {
          case Some(why) => rejected := rejected + [(record.id, why)];
          case None => records := Insert(records, record);
        }
        done := done + [record];
      }
      assert done == rs;
      AdmittedMembers(before, rs, placement, authority, limits);
      ListedMeans(old(rejected), rs, placement, authority, limits);
    }

    /// Renders with refusals decided elsewhere; what is held is decided here.
    method RenderExcluding(limits: ReaderLimits, now: i64, refused: set<Id>) returns (out: seq<RenderedMessage>)
      requires Valid()
      ensures out == Rendering(records, Hidden(limits, now, refused))
    {
      hide Ascending, FaithfulIds, Filter, RenderOne, RenderEach, IsShown, HeldIds, AllMessages, StartAll;
      var held := HeldIds(records, limits, now);
      ghost var hidden := Hidden(limits, now, refused);
      ghost var shown := Filter(records, IsShown(hidden));
      ShownAreMessages(records, hidden);
      DistinctShown(records, hidden);
      ExclusionIsById(records, limits, now, refused);
      var messages, order := FirstPass(records, refused + held, hidden);
      messages := SecondPass(records, refused + held, hidden, shown, messages);
      out := Collect(messages, order, records, hidden, shown);
    }

    /// Renders the channel.
    method Render(limits: ReaderLimits, now: i64) returns (out: seq<RenderedMessage>)
      requires Valid()
      ensures out == Rendering(records, Hidden(limits, now, Refusals(records, limits).Keys))
    {
      var withheld := WithheldOf(records, limits, now);
      out := RenderExcluding(limits, now, withheld.refused.Keys);
    }
  }

  function IdsOf(rs: seq<Record>): (ids: seq<Id>)
    ensures |ids| == |rs|
    ensures forall k :: 0 <= k < |rs| ==> ids[k] == rs[k].id
  {
    if rs == [] then [] else IdsOf(rs[..|rs| - 1]) + [rs[|rs| - 1].id]
  }

  lemma {:induction false} AdmitStep(
    before: seq<Record>, done: seq<Record>, r: Record, placement: Placement, authority: Authority, limits: ReaderLimits)
    requires Ascending(before)
    ensures InsertAll(before, Accepted(done + [r], placement, authority, limits)) ==
            if Check(r, placement, authority, limits).None?
            then Insert(InsertAll(before, Accepted(done, placement, authority, limits)), r)
            else InsertAll(before, Accepted(done, placement, authority, limits))
    ensures Refused(done + [r], placement, authority, limits) ==
            Refused(done, placement, authority, limits)
            + match Check(r, placement, authority, limits) case None => [] case Some(why) => [(r.id, why)]
  {
    hide Check;
    assert (done + [r])[..|done|] == done;
    var a := Accepted(done, placement, authority, limits);
    assert (a + [r])[..|a|] == a;
  }

  lemma {:induction false} AdmittedMembers(
    before: seq<Record>, rs: seq<Record>, placement: Placement, authority: Authority, limits: ReaderLimits)
    requires Ascending(before) && FaithfulIds(before + rs)
    ensures var after := InsertAll(before, Accepted(rs, placement, authority, limits));
            && FaithfulIds(after)
            && HoldsJust(after, before, rs, placement, authority, limits)
  {
    hide Check, Admissible;
    forall r | r in rs
      ensures Passes(placement, authority, limits)(r) <==> Admissible(r, placement, authority, limits)
    {
      CheckMeans(r, placement, authority, limits);
    }
    var accepted := Accepted(rs, placement, authority, limits);
    FilterMembers(rs, Passes(placement, authority, limits));
    FaithfulOver(before + rs, before + accepted);
    InsertAllMembers(before, accepted);
    FaithfulOver(before + rs, InsertAll(before, accepted));
  }

  lemma {:induction false} ListedMeans(
      before: seq<(Id, Rejection)>, rs: seq<Record>, placement: Placement, authority: Authority, limits: ReaderLimits)
    ensures ListsJust(before + Refused(rs, placement, authority, limits), before, rs, placement, authority, limits)
  {
    hide Refused, FailsBy, Accepted;
    RefusedMeans(rs, placement, authority, limits);
  }

  lemma {:induction false} NothingRefused(placement: Placement, authority: Authority, limits: ReaderLimits)
    ensures Refused([], placement, authority, limits) == []
  {
  }

  /// What is listed: each failing record once, with the first thing it fails.
  lemma {:induction false} RefusedMeans(
      rs: seq<Record>, placement: Placement, authority: Authority, limits: ReaderLimits)
    ensures forall id, why :: (id, why) in Refused(rs, placement, authority, limits)
              <==> exists r :: r in rs && r.id == id && FailsBy(why, r, placement, authority, limits)
    ensures |Refused(rs, placement, authority, limits)| == |rs| - |Accepted(rs, placement, authority, limits)|
  {
    hide Check, FailsBy, Admissible;
    if rs != [] {
      var front, r := rs[..|rs| - 1], rs[|rs| - 1];
      assert rs == front + [r];
      RefusedMeans(front, placement, authority, limits);
      CheckMeans(r, placement, authority, limits);
      var before, after := Refused(front, placement, authority, limits), Refused(rs, placement, authority, limits);
      forall id, why
        ensures (id, why) in after
          <==> exists x :: x in rs && x.id == id && FailsBy(why, x, placement, authority, limits)
      {
        assert (exists x :: x in rs && x.id == id && FailsBy(why, x, placement, authority, limits))
          <==> (exists x :: x in front && x.id == id && FailsBy(why, x, placement, authority, limits))
               || (r.id == id && FailsBy(why, r, placement, authority, limits));
      }
    }
  }

  /// And in the order delivered.
  lemma {:induction false} RefusedInOrder(
      a: seq<Record>, b: seq<Record>, placement: Placement, authority: Authority, limits: ReaderLimits)
    ensures Refused(a + b, placement, authority, limits)
            == Refused(a, placement, authority, limits) + Refused(b, placement, authority, limits)
  {
    hide Check;
    if b == [] {
      assert a + b == a;
    } else {
      var n := |b| - 1;
      RefusedInOrder(a, b[..n], placement, authority, limits);
      assert (a + b)[..|a + b| - 1] == a + b[..n];
    }
  }

  // ------------------------------------------------------------------------
  // The two passes
  // ------------------------------------------------------------------------

  /// No two share an id, so the map and the order list name the same messages.
  predicate Distinct(messages: seq<Record>) {
    forall i, j :: 0 <= i < j < |messages| ==> messages[i].id != messages[j].id
  }

  lemma {:induction false} DistinctShown(rs: seq<Record>, hidden: Record -> bool)
    requires Ascending(rs) && FaithfulIds(rs)
    ensures Distinct(Filter(rs, IsShown(hidden)))
  {
    FilterAscending(rs, IsShown(hidden));
    FilterFaithful(rs, IsShown(hidden));
    var shown := Filter(rs, IsShown(hidden));
    forall i, j | 0 <= i < j < |shown| ensures shown[i].id != shown[j].id {
      NoRepeatedId(shown, i, j);
    }
  }

  /// Excluding by id is excluding by record.
  lemma {:induction false} ExclusionIsById(rs: seq<Record>, limits: ReaderLimits, now: i64, refused: set<Id>)
    requires FaithfulIds(rs)
    ensures forall r :: r in rs ==> (r.id in refused + HeldIds(rs, limits, now) <==> Hidden(limits, now, refused)(r))
  {
    forall r | r in rs && r.id in HeldIds(rs, limits, now) ensures IsHeld(r, limits, now) {
      var x :| x in rs && IsHeld(x, limits, now) && x.id == r.id;
    }
  }

  /// The map pass one builds.
  function StartAll(messages: seq<Record>): map<Id, RenderedMessage>
    requires AllMessages(messages)
  {
    if messages == [] then map[]
    else StartAll(messages[..|messages| - 1])[messages[|messages| - 1].id := Start(messages[|messages| - 1])]
  }

  lemma {:induction false} ShownStep(rs: seq<Record>, r: Record, hidden: Record -> bool)
    ensures Filter(rs + [r], IsShown(hidden)) ==
            Filter(rs, IsShown(hidden)) + if r.body.Message? && !hidden(r) then [r] else []
    ensures AllMessages(Filter(rs, IsShown(hidden)))
    ensures r.body.Message? ==>
              AllMessages(Filter(rs, IsShown(hidden)) + [r])
              && StartAll(Filter(rs, IsShown(hidden)) + [r]) == StartAll(Filter(rs, IsShown(hidden)))[r.id := Start(r)]
              && IdsOf(Filter(rs, IsShown(hidden)) + [r]) == IdsOf(Filter(rs, IsShown(hidden))) + [r.id]
  {
    FilterAppend(rs, r, IsShown(hidden));
    ShownAreMessages(rs, hidden);
    hide Filter, Start;
    var shown := Filter(rs, IsShown(hidden));
    if r.body.Message? {
      var more := shown + [r];
      assert more[..|shown|] == shown && more[|more| - 1] == r;
    }
  }

  /// Pass one: messages, in merge order, so that pass two can target them.
  method FirstPass(records: seq<Record>, excluded: set<Id>, ghost hidden: Record -> bool)
    returns (messages: map<Id, RenderedMessage>, order: seq<Id>)
    requires forall r :: r in records ==> (r.id in excluded <==> hidden(r))
    ensures AllMessages(Filter(records, IsShown(hidden)))
    ensures messages == StartAll(Filter(records, IsShown(hidden)))
    ensures order == IdsOf(Filter(records, IsShown(hidden)))
  {
    ShownAreMessages([], hidden);
    assert Filter([], IsShown(hidden)) == [];
    messages, order := map[], [];
    ghost var done: seq<Record> := [];
    hide Filter, StartAll, IdsOf, AllMessages;
    for k := 0 to |records|
      invariant done == records[..k] && AllMessages(Filter(done, IsShown(hidden)))
      invariant messages == StartAll(Filter(done, IsShown(hidden)))
      invariant order == IdsOf(Filter(done, IsShown(hidden)))
    {
      var record := records[k];
      ShownStep(done, record, hidden);
      if record.id !in excluded && record.body.Message? {
        order := order + [record.id];
        messages := messages[record.id := Start(record)];
      }
      done := done + [record];
      ShownAreMessages(done, hidden);
    }
    assert done == records;
  }

  /// What every message has become once `done` has been applied.
  ghost predicate Depicted(
    messages: map<Id, RenderedMessage>, shown: seq<Record>, done: seq<Record>, hidden: Record -> bool)
    requires AllMessages(shown)
  {
    && (forall id :: id in messages ==> messages[id].id == id)
    && (forall j :: 0 <= j < |shown| ==>
        shown[j].id in messages && messages[shown[j].id] == RenderOne(shown[j], done, hidden))
  }

  lemma {:induction false} StartedAreDepicted(shown: seq<Record>, hidden: Record -> bool)
    requires AllMessages(shown) && Distinct(shown)
    ensures Depicted(StartAll(shown), shown, [], hidden)
    ensures forall j :: 0 <= j < |shown| ==> StartAll(shown)[shown[j].id] == Start(shown[j])
  {
    if shown != [] {
      var front, last := shown[..|shown| - 1], shown[|shown| - 1];
      StartedAreDepicted(front, hidden);
      forall j | 0 <= j < |shown|
        ensures shown[j].id in StartAll(shown) && StartAll(shown)[shown[j].id] == Start(shown[j])
      {
        assert j < |front| ==> front[j] == shown[j];
      }
    }
  }

  /// One turn of pass two on the map: only the target, if it is there, changes.
  ghost predicate Turned(before: map<Id, RenderedMessage>, after: map<Id, RenderedMessage>, r: Record, skip: bool) {
    var target := r.body.Target();
    if !skip && target.Some? && target.value in before
    then after == before[target.value := Act(before[target.value], r)]
    else after == before
  }

  /// That is the record's effect on every message.
  lemma {:induction false} TurnDepicts(
    shown: seq<Record>, done: seq<Record>, r: Record, hidden: Record -> bool,
    before: map<Id, RenderedMessage>, after: map<Id, RenderedMessage>)
    requires AllMessages(shown) && Depicted(before, shown, done, hidden)
    requires Turned(before, after, r, hidden(r))
    ensures Depicted(after, shown, done + [r], hidden)
  {
    assert (done + [r])[..|done|] == done;
    forall j | 0 <= j < |shown|
      ensures shown[j].id in after && after[shown[j].id] == RenderOne(shown[j], done + [r], hidden)
    {
      IdentityIsKept(shown[j], done, hidden);
      assert shown[j].id in before;
    }
  }

  /// Pass two: everything that modifies a message, in merge order.
  method SecondPass(
    records: seq<Record>, excluded: set<Id>, ghost hidden: Record -> bool, ghost shown: seq<Record>,
    started: map<Id, RenderedMessage>) returns (messages: map<Id, RenderedMessage>)
    requires forall r :: r in records ==> (r.id in excluded <==> hidden(r))
    requires AllMessages(shown) && Distinct(shown) && started == StartAll(shown)
    ensures Depicted(messages, shown, records, hidden)
  {
    StartedAreDepicted(shown, hidden);
    hide Depicted, StartAll, AllMessages, Distinct, React;
    messages := started;
    ghost var done: seq<Record> := [];
    for k := 0 to |records|
      invariant done == records[..k]
      invariant Depicted(messages, shown, done, hidden)
    {
      var record := records[k];
      var next := messages;
      if record.id !in excluded {
        match record.body {
          case Message(_, _, _) =>
          case Edit(target, body) =>
            if target in messages && messages[target].author == record.author {
              next := messages[target := messages[target].(body := body, edited := true)];
            }
          case Tombstone(target) =>
            if target in messages && messages[target].author == record.author {
              next := messages[target := messages[target].(withdrawn := true)];
            }
          case Reaction(target, key, remove) =>
            if target in messages {
              next := messages[target := messages[target].(
                reactions := React(messages[target].reactions, key, record.author, remove))];
            }
          case Pin(target, remove) =>
            if target in messages {
              next := messages[target := messages[target].(pinned := !remove)];
            }
          case Redaction(target, _) =>
            if target in messages {
              next := messages[target := messages[target].(redacted := true)];
            }
          case Unknown(_, _) =>
        }
      }
      TargetsAreThemselves(messages, shown, done, hidden, record);
      TurnDepicts(shown, done, record, hidden, messages, next);
      messages := next;
      done := done + [record];
    }
    assert done == records;
  }

  /// A message filed under an id has that id, so `Act` and the map lookup agree.
  lemma {:induction false} TargetsAreThemselves(
    messages: map<Id, RenderedMessage>, shown: seq<Record>, done: seq<Record>, hidden: Record -> bool, r: Record)
    requires AllMessages(shown) && Depicted(messages, shown, done, hidden)
    ensures r.body.Target().Some? && r.body.Target().value in messages ==>
              messages[r.body.Target().value].id == r.body.Target().value
              && messages[r.body.Target().value := messages[r.body.Target().value]] == messages
  {
  }

  /// The messages in the order they were met, each taken from the map once.
  method Collect(
    messages: map<Id, RenderedMessage>, order: seq<Id>,
    ghost records: seq<Record>, ghost hidden: Record -> bool, ghost shown: seq<Record>)
  returns (out: seq<RenderedMessage>)
    requires AllMessages(shown) && Distinct(shown) && order == IdsOf(shown)
    requires Depicted(messages, shown, records, hidden)
    ensures out == RenderEach(shown, records, hidden)
  {
    hide RenderOne, IdsOf;
    var left := messages;
    out := [];
    for k := 0 to |order|
      invariant forall j :: k <= j < |shown| ==>
                  shown[j].id in left && left[shown[j].id] == RenderOne(shown[j], records, hidden)
      invariant |out| == k
      invariant forall j :: 0 <= j < k ==> out[j] == RenderOne(shown[j], records, hidden)
    {
      if order[k] in left {
        out := out + [left[order[k]]];
        left := left - {order[k]};
      }
    }
    assert out == RenderEach(shown, records, hidden);
  }
}
