/**
  What one message looks like once everything that acts on it is taken into
  account, and the specification of a channel's rendering: no passes, no maps in
  progress, only which record acted last.
 */
module Render {
  import opened Prelude
  import opened Records

  datatype RenderedMessage = RenderedMessage(
    id: Id, author: Id, hlc: Hlc, body: Text, replyTo: Option<Id>, attachments: seq<Attachment>,
    edited: bool, withdrawn: bool, redacted: bool, reactions: map<Text, set<Id>>, pinned: bool)

  function Start(r: Record): RenderedMessage
    requires r.body.Message?
  {
    RenderedMessage(r.id, r.author, r.hlc, r.body.text, r.body.replyTo, r.body.attachments,
                    false, false, false, map[], false)
  }

  /// A reactor added to, or taken from, one key; no key is left with nobody.
  function React(reactions: map<Text, set<Id>>, key: Text, who: Id, remove: bool): map<Text, set<Id>> {
    var held := if key in reactions then reactions[key] else {};
    var now := if remove then held - {who} else held + {who};
    if now == {} then reactions - {key} else reactions[key := now]
  }

  /// What one record does to one message.
  function Act(m: RenderedMessage, r: Record): (after: RenderedMessage)
    ensures after.id == m.id && after.author == m.author && after.hlc == m.hlc
    ensures after.replyTo == m.replyTo && after.attachments == m.attachments
  {
    if r.body.Target() != Some(m.id) then m
    else
      match r.body
      case Edit(_, text) => if m.author == r.author then m.(body := text, edited := true) else m
      case Tombstone(_) => if m.author == r.author then m.(withdrawn := true) else m
      case Reaction(_, key, remove) => m.(reactions := React(m.reactions, key, r.author, remove))
      case Pin(_, remove) => m.(pinned := !remove)
      case Redaction(_, _) => m.(redacted := true)
  }

  /// What every record not hidden does to it, in order.
  function ActAll(m: RenderedMessage, rs: seq<Record>, hidden: Record -> bool): RenderedMessage {
    if rs == [] then m
    else
      var before, r := ActAll(m, rs[..|rs| - 1], hidden), rs[|rs| - 1];
      if hidden(r) then before else Act(before, r)
  }

  function IsShown(hidden: Record -> bool): Record -> bool {
    (r: Record) => r.body.Message? && !hidden(r)
  }

  /// One message record, as the whole of `rs` leaves it.
  function RenderOne(r: Record, rs: seq<Record>, hidden: Record -> bool): RenderedMessage
    requires r.body.Message?
  {
    ActAll(Start(r), rs, hidden)
  }

  predicate AllMessages(messages: seq<Record>) {
    forall k :: 0 <= k < |messages| ==> messages[k].body.Message?
  }

  function RenderEach(messages: seq<Record>, rs: seq<Record>, hidden: Record -> bool): (out: seq<RenderedMessage>)
    requires AllMessages(messages)
    ensures |out| == |messages|
    ensures forall k :: 0 <= k < |messages| ==> out[k] == RenderOne(messages[k], rs, hidden)
  {
    if messages == [] then []
    else RenderEach(messages[..|messages| - 1], rs, hidden) + [RenderOne(messages[|messages| - 1], rs, hidden)]
  }

  lemma {:induction false} ShownAreMessages(rs: seq<Record>, hidden: Record -> bool)
    ensures AllMessages(Filter(rs, IsShown(hidden)))
  {
    FilterMembers(rs, IsShown(hidden));
    var shown := Filter(rs, IsShown(hidden));
    forall k | 0 <= k < |shown| ensures shown[k].body.Message? {
      assert shown[k] in shown;
    }
  }

  /// A channel's rendering: the messages not hidden, in merge order.
  function Rendering(rs: seq<Record>, hidden: Record -> bool): seq<RenderedMessage> {
    ShownAreMessages(rs, hidden);
    RenderEach(Filter(rs, IsShown(hidden)), rs, hidden)
  }

  // ------------------------------------------------------------------------
  // Which record acted last
  // ------------------------------------------------------------------------

  /// The last record of `rs` that `p` picks out.
  function Latest(rs: seq<Record>, p: Record -> bool): (last: Option<Record>)
    ensures last.Some? ==> p(last.value)
  {
    if rs == [] then None
    else if p(rs[|rs| - 1]) then Some(rs[|rs| - 1])
    else Latest(rs[..|rs| - 1], p)
  }

  /// None exactly when `p` picks out nothing; otherwise one it picks out, with
  /// none after it.
  lemma {:induction false} LatestMeans(rs: seq<Record>, p: Record -> bool)
    ensures Latest(rs, p).None? <==> forall k :: 0 <= k < |rs| ==> !p(rs[k])
    ensures Latest(rs, p).Some? ==>
              exists k :: 0 <= k < |rs| && rs[k] == Latest(rs, p).value && p(rs[k])
                          && forall j :: k < j < |rs| ==> !p(rs[j])
  {
    if rs != [] {
      var n := |rs| - 1;
      LatestMeans(rs[..n], p);
      if p(rs[n]) {
        assert rs[n] == Latest(rs, p).value;
      } else if Latest(rs, p).Some? {
        var front := rs[..n];
        var k :| 0 <= k < |front| && front[k] == Latest(front, p).value && p(front[k])
                 && forall j :: k < j < |front| ==> !p(front[j]);
        assert rs[k] == front[k];
        forall j | k < j < |rs| ensures !p(rs[j]) {
          assert j < n ==> rs[j] == front[j];
        }
      }
    }
  }

  function EditsOf(m: Record, hidden: Record -> bool): Record -> bool {
    (r: Record) => !hidden(r) && r.body.Edit? && r.body.target == m.id && r.author == m.author
  }

  function WithdrawalsOf(m: Record, hidden: Record -> bool): Record -> bool {
    (r: Record) => !hidden(r) && r.body.Tombstone? && r.body.target == m.id && r.author == m.author
  }

  function RedactionsOf(m: Record, hidden: Record -> bool): Record -> bool {
    (r: Record) => !hidden(r) && r.body.Redaction? && r.body.target == m.id
  }

  function PinsOf(m: Record, hidden: Record -> bool): Record -> bool {
    (r: Record) => !hidden(r) && r.body.Pin? && r.body.target == m.id
  }

  function ReactionsOf(m: Record, key: Text, who: Id, hidden: Record -> bool): Record -> bool {
    (r: Record) => !hidden(r) && r.body.Reaction? && r.body.target == m.id && r.body.key == key && r.author == who
  }

  /// Nothing that acts on a message changes what it is.
  lemma {:induction false} IdentityIsKept(m: Record, rs: seq<Record>, hidden: Record -> bool)
    requires m.body.Message?
    ensures var v := RenderOne(m, rs, hidden);
            v.id == m.id && v.author == m.author && v.hlc == m.hlc
            && v.replyTo == m.body.replyTo && v.attachments == m.body.attachments
  {
    if rs != [] {
      IdentityIsKept(m, rs[..|rs| - 1], hidden);
    }
  }

  /// What each kind of record can change of a message it may act on.
  lemma {:induction false} ActByField(v: RenderedMessage, r: Record)
    ensures var after, mine := Act(v, r), r.body.Target() == Some(v.id);
            && after.edited == (v.edited || (mine && r.body.Edit? && r.author == v.author))
            && after.body == (if mine && r.body.Edit? && r.author == v.author then r.body.text else v.body)
            && after.withdrawn == (v.withdrawn || (mine && r.body.Tombstone? && r.author == v.author))
            && after.redacted == (v.redacted || (mine && r.body.Redaction?))
            && after.pinned == (if mine && r.body.Pin? then !r.body.remove else v.pinned)
            && after.reactions == (if mine && r.body.Reaction?
                                   then React(v.reactions, r.body.key, r.author, r.body.remove)
                                   else v.reactions)
  {
  }

  /// The body is the last edit by the message's own author, or the original.
  lemma {:induction false} BodyIsTheLastEdit(m: Record, rs: seq<Record>, hidden: Record -> bool)
    requires m.body.Message?
    ensures var v, last := RenderOne(m, rs, hidden), Latest(rs, EditsOf(m, hidden));
            v.edited == last.Some? && v.body == (if last.Some? then last.value.body.text else m.body.text)
  {
    hide Act, React;
    if rs != [] {
      BodyIsTheLastEdit(m, rs[..|rs| - 1], hidden);
      IdentityIsKept(m, rs[..|rs| - 1], hidden);
      ActByField(RenderOne(m, rs[..|rs| - 1], hidden), rs[|rs| - 1]);
    }
  }

  /// Withdrawn when its author withdrew it, redacted when anybody redacted it.
  lemma {:induction false} HidingIsByAnyRecord(m: Record, rs: seq<Record>, hidden: Record -> bool)
    requires m.body.Message?
    ensures RenderOne(m, rs, hidden).withdrawn == Latest(rs, WithdrawalsOf(m, hidden)).Some?
    ensures RenderOne(m, rs, hidden).redacted == Latest(rs, RedactionsOf(m, hidden)).Some?
  {
    hide Act, React;
    if rs != [] {
      HidingIsByAnyRecord(m, rs[..|rs| - 1], hidden);
      IdentityIsKept(m, rs[..|rs| - 1], hidden);
      ActByField(RenderOne(m, rs[..|rs| - 1], hidden), rs[|rs| - 1]);
    }
  }

  /// Pinned when the last pin was not a removal.
  lemma {:induction false} PinnedByTheLastPin(m: Record, rs: seq<Record>, hidden: Record -> bool)
    requires m.body.Message?
    ensures var last := Latest(rs, PinsOf(m, hidden));
            RenderOne(m, rs, hidden).pinned == (last.Some? && !last.value.body.remove)
  {
    hide Act, React;
    if rs != [] {
      PinnedByTheLastPin(m, rs[..|rs| - 1], hidden);
      IdentityIsKept(m, rs[..|rs| - 1], hidden);
      ActByField(RenderOne(m, rs[..|rs| - 1], hidden), rs[|rs| - 1]);
    }
  }

  predicate Reacted(reactions: map<Text, set<Id>>, key: Text, who: Id) {
    key in reactions && who in reactions[key]
  }

  lemma {:induction false} ReactMeans(reactions: map<Text, set<Id>>, key: Text, who: Id, remove: bool)
    requires forall k :: k in reactions ==> reactions[k] != {}
    ensures var after := React(reactions, key, who, remove);
            && (forall k :: k in after ==> after[k] != {})
            && (forall k, w :: Reacted(after, k, w)
                               <==> if k == key && w == who then !remove else Reacted(reactions, k, w))
  {
  }

  /// Somebody stands under a key exactly when their last reaction with it was an
  /// addition, and no key stands with nobody under it.
  lemma {:induction false} ReactionsByTheLast(m: Record, rs: seq<Record>, hidden: Record -> bool)
    requires m.body.Message?
    ensures var v := RenderOne(m, rs, hidden);
            && (forall key, who :: Reacted(v.reactions, key, who)
                  <==> var last := Latest(rs, ReactionsOf(m, key, who, hidden)); last.Some? && !last.value.body.remove)
            && (forall key :: key in v.reactions ==> v.reactions[key] != {})
  {
    if rs != [] {
      var front, r := rs[..|rs| - 1], rs[|rs| - 1];
      ReactionsByTheLast(m, front, hidden);
      IdentityIsKept(m, front, hidden);
      if !hidden(r) && r.body.Reaction? && r.body.target == m.id {
        ReactMeans(RenderOne(m, front, hidden).reactions, r.body.key, r.author, r.body.remove);
      }
    }
  }

  /// Everything a rendered message claims about the record set.
  ghost predicate Depicts(v: RenderedMessage, m: Record, rs: seq<Record>, hidden: Record -> bool)
    requires m.body.Message?
  {
    var edit, pin := Latest(rs, EditsOf(m, hidden)), Latest(rs, PinsOf(m, hidden));
    && v.id == m.id && v.author == m.author && v.hlc == m.hlc
    && v.replyTo == m.body.replyTo && v.attachments == m.body.attachments
    && v.edited == edit.Some?
    && v.body == (if edit.Some? then edit.value.body.text else m.body.text)
    && v.withdrawn == Latest(rs, WithdrawalsOf(m, hidden)).Some?
    && v.redacted == Latest(rs, RedactionsOf(m, hidden)).Some?
    && v.pinned == (pin.Some? && !pin.value.body.remove)
    && (forall key, who :: Reacted(v.reactions, key, who)
          <==> var last := Latest(rs, ReactionsOf(m, key, who, hidden)); last.Some? && !last.value.body.remove)
    && (forall key :: key in v.reactions ==> v.reactions[key] != {})
  }

  /// The rendering depicts each message.
  lemma {:induction false} RenderingDepicts(m: Record, rs: seq<Record>, hidden: Record -> bool)
    requires m.body.Message?
    ensures Depicts(RenderOne(m, rs, hidden), m, rs, hidden)
  {
    hide RenderOne, Latest, EditsOf, WithdrawalsOf, RedactionsOf, PinsOf, ReactionsOf;
    IdentityIsKept(m, rs, hidden);
    BodyIsTheLastEdit(m, rs, hidden);
    HidingIsByAnyRecord(m, rs, hidden);
    PinnedByTheLastPin(m, rs, hidden);
    ReactionsByTheLast(m, rs, hidden);
  }

  /// And nothing else does: the depiction leaves no field open.
  lemma {:induction false} DepictionIsUnique(
      v: RenderedMessage, w: RenderedMessage, m: Record, rs: seq<Record>, hidden: Record -> bool)
    requires m.body.Message? && Depicts(v, m, rs, hidden) && Depicts(w, m, rs, hidden)
    ensures v == w
  {
    hide Latest, EditsOf, WithdrawalsOf, RedactionsOf, PinsOf, ReactionsOf;
    assert forall key, who :: Reacted(v.reactions, key, who) <==> Reacted(w.reactions, key, who);
    SameReactions(v.reactions, w.reactions);
  }

  lemma {:induction false} SameReactions(a: map<Text, set<Id>>, b: map<Text, set<Id>>)
    requires forall key, who :: Reacted(a, key, who) <==> Reacted(b, key, who)
    requires forall key :: key in a ==> a[key] != {}
    requires forall key :: key in b ==> b[key] != {}
    ensures a == b
  {
    forall key | key in a ensures key in b && a[key] == b[key] {
      var who :| who in a[key];
      assert Reacted(a, key, who);
      forall w: Id ensures w in a[key] <==> w in b[key] {
        assert Reacted(a, key, w) <==> Reacted(b, key, w);
      }
    }
    forall key | key in b ensures key in a {
      var who :| who in b[key];
      assert Reacted(b, key, who);
    }
  }

  // ------------------------------------------------------------------------
  // Pages
  // ------------------------------------------------------------------------

  /// A message looks the same to anything holding every record that acts on it.
  lemma {:induction false} RenderOneIsLocal(m: Record, rs: seq<Record>, p: Record -> bool, hidden: Record -> bool)
    requires m.body.Message?
    requires forall r :: r in rs && r.body.Target() == Some(m.id) ==> p(r)
    ensures RenderOne(m, Filter(rs, p), hidden) == RenderOne(m, rs, hidden)
  {
    if rs != [] {
      var front, r := rs[..|rs| - 1], rs[|rs| - 1];
      assert rs == front + [r];
      RenderOneIsLocal(m, front, p, hidden);
      IdentityIsKept(m, front, hidden);
      var kept := Filter(front, p);
      assert (kept + [r])[..|kept|] == kept;
    }
  }

  function Ids(rs: seq<Record>): set<Id> {
    set r | r in rs :: r.id
  }

  function Among(ids: set<Id>): RenderedMessage -> bool {
    (v: RenderedMessage) => v.id in ids
  }

  lemma {:induction false} RenderEachRestricts(
    messages: seq<Record>, rs: seq<Record>, page: seq<Record>, p: Record -> bool, hidden: Record -> bool, ids: set<Id>)
    requires AllMessages(messages) && AllMessages(Filter(messages, p))
    requires forall m :: m in messages ==> (p(m) <==> m.id in ids)
    requires forall m :: m in messages && p(m) ==> RenderOne(m, page, hidden) == RenderOne(m, rs, hidden)
    ensures RenderEach(Filter(messages, p), page, hidden) == Filter(RenderEach(messages, rs, hidden), Among(ids))
  {
    if messages != [] {
      var front, m := messages[..|messages| - 1], messages[|messages| - 1];
      assert messages == front + [m];
      var kept := Filter(front, p);
      assert forall k :: 0 <= k < |kept| ==> kept[k] == Filter(messages, p)[k];
      RenderEachRestricts(front, rs, page, p, hidden, ids);
      IdentityIsKept(m, rs, hidden);
      FilterAppend(RenderEach(front, rs, hidden), RenderOne(m, rs, hidden), Among(ids));
      assert (kept + [m])[..|kept|] == kept;
    }
  }

  /// A page, rendered on its own with the refusals of the whole channel, is the
  /// whole channel's rendering cut down to the page: the same messages, looking
  /// the same, in the same order.
  lemma {:induction false} PagesAreLocal(rs: seq<Record>, p: Record -> bool, hidden: Record -> bool)
    requires Ascending(rs) && FaithfulIds(rs)
    requires forall m, r :: m in rs && IsShown(hidden)(m) && p(m) && r in rs && r.body.Target() == Some(m.id) ==> p(r)
    ensures Rendering(Filter(rs, p), hidden) == Filter(Rendering(rs, hidden), Among(Ids(Filter(rs, p))))
  {
    var page, shown, q := Filter(rs, p), Filter(rs, IsShown(hidden)), IsShown(hidden);
    var ids := Ids(page);
    ShownAreMessages(rs, hidden);
    ShownAreMessages(page, hidden);
    FilterCommutes(rs, p, q);
    FilterMembers(rs, p);
    FilterMembers(rs, q);
    forall m | m in shown ensures p(m) <==> m.id in ids {
      if m.id in ids {
        var r :| r in page && r.id == m.id;
        assert r in rs && m in rs;
      }
    }
    forall m | m in shown && p(m) ensures RenderOne(m, page, hidden) == RenderOne(m, rs, hidden) {
      RenderOneIsLocal(m, rs, p, hidden);
    }
    RenderEachRestricts(shown, rs, page, p, hidden, ids);
  }

  /// Messages come out in strictly ascending `(hlc, id)`.
  lemma {:induction false} RenderingIsInOrder(rs: seq<Record>, hidden: Record -> bool)
    requires Ascending(rs)
    ensures var out := Rendering(rs, hidden);
            forall i, j :: 0 <= i < j < |out| ==> Cursor(out[i].hlc, out[i].id).Less(Cursor(out[j].hlc, out[j].id))
  {
    ShownAreMessages(rs, hidden);
    FilterAscending(rs, IsShown(hidden));
    var shown, out := Filter(rs, IsShown(hidden)), Rendering(rs, hidden);
    forall i, j | 0 <= i < j < |out| ensures Cursor(out[i].hlc, out[i].id).Less(Cursor(out[j].hlc, out[j].id)) {
      IdentityIsKept(shown[i], rs, hidden);
      IdentityIsKept(shown[j], rs, hidden);
      assert shown[i].Position().Less(shown[j].Position());
    }
  }
}
