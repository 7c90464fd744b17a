/**
  From what members wrote to what any reader shows: histories published as
  chains, their segments read back and admitted in any order.
 */
module Delivery {
  import opened Prelude
  import opened Records
  import opened Segments
  import opened Logs
  import opened Chain
  import Limits
  import RecordCodec
  import Render
  import View
  import Convergence

  /** A member's history in a channel, and how it is published. */
  datatype Member = Member(site: Site, own: seq<Record>)

  /// A history in order, of its own channel and author, cut into segments no
  /// longer than a reader takes.
  ghost predicate Publishable(m: Member, isKey: Id -> bool, hash: Bytes -> Id) {
    hide Walk, InOrder, AllWellFormed;
    && InOrder(m.own) && |m.own| <= U64_MAX
    && (forall r :: r in m.own ==> r.channel == m.site.channel && r.author == m.site.author)
    && isKey(m.site.author) && AllWellFormed(m.own, isKey, hash)
    && forall p, k :: Walk(m.site, m.own) == Some(p) && 0 <= k < |Links(p)| ==>
         |Links(p)[k].segment.records| <= MAX_RECORDS_PER_SEGMENT
  }

  /// What a reader takes from one published object: its records, if it reads.
  function ReadLink(link: Log, isKey: Id -> bool, hash: Bytes -> Id): seq<Record> {
    if link.pointer.None? then []
    else
      match TakeSegment(link.pointer.value.content, isKey, hash)
      case Err(_) => []
      case Ok(s) => s.records
  }

  function ReadLinks(links: seq<Log>, isKey: Id -> bool, hash: Bytes -> Id): (batches: seq<seq<Record>>)
    ensures |batches| == |links|
    ensures forall k :: 0 <= k < |links| ==> batches[k] == ReadLink(links[k], isKey, hash)
  {
    if links == [] then []
    else ReadLinks(links[..|links| - 1], isKey, hash) + [ReadLink(links[|links| - 1], isKey, hash)]
  }

  /// Every segment of every member's chain, as read.
  function ReadAll(members: seq<Member>, isKey: Id -> bool, hash: Bytes -> Id): seq<seq<Record>> {
    if members == [] then []
    else
      var m := members[|members| - 1];
      ReadAll(members[..|members| - 1], isKey, hash)
      + match Walk(m.site, m.own) case None => [] case Some(p) => ReadLinks(Links(p), isKey, hash)
  }

  function Histories(members: seq<Member>): seq<seq<Record>> {
    if members == [] then [] else Histories(members[..|members| - 1]) + [members[|members| - 1].own]
  }

  lemma {:induction false} LinksDeliver(links: seq<Log>, isKey: Id -> bool, hash: Bytes -> Id)
    requires forall k :: 0 <= k < |links| ==> ReadLink(links[k], isKey, hash) == links[k].segment.records
    ensures Convergence.Delivered(ReadLinks(links, isKey, hash)) == AllRecords(links)
  {
    hide ReadLink;
    if links != [] {
      LinksDeliver(links[..|links| - 1], isKey, hash);
      assert ReadLinks(links, isKey, hash)[..|links| - 1] == ReadLinks(links[..|links| - 1], isKey, hash);
    }
  }

  /// A published history reads back as itself.
  lemma {:induction false} HistoryReadsBack(m: Member, isKey: Id -> bool, hash: Bytes -> Id)
    requires Publishable(m, isKey, hash)
    ensures Walk(m.site, m.own).Some?
    ensures Convergence.Delivered(ReadLinks(Links(Walk(m.site, m.own).value), isKey, hash)) == m.own
  {
    hide Walk, Links, InOrder, TakeSegment, AllWellFormed, ReadLinks, AllRecords, IsChain, Convergence.Delivered;
    OrderedHistoryIsAccepted(m.site, m.own);
    PublishedChainIsTheHistory(m.site, m.own);
    var p := Walk(m.site, m.own).value;
    var links := Links(p);
    forall k | 0 <= k < |links| ensures ReadLink(links[k], isKey, hash) == links[k].segment.records {
      LinksReadBack(m.site, m.own, k, isKey, hash);
      assert |links[k].segment.records| <= MAX_RECORDS_PER_SEGMENT;
    }
    LinksDeliver(links, isKey, hash);
  }

  lemma {:induction false} DeliveredConcat(a: seq<seq<Record>>, b: seq<seq<Record>>)
    ensures Convergence.Delivered(a + b) == Convergence.Delivered(a) + Convergence.Delivered(b)
  {
    if b == [] {
      assert a + b == a;
    } else {
      DeliveredConcat(a, b[..|b| - 1]);
      assert (a + b)[..|a + b| - 1] == a + b[..|b| - 1];
    }
  }

  lemma {:induction false} DeliveredOne(batch: seq<Record>)
    ensures Convergence.Delivered([batch]) == batch
  {
    assert [batch][..0] == [];
  }

  lemma {:induction false} EveryHistoryReadsBack(members: seq<Member>, isKey: Id -> bool, hash: Bytes -> Id)
    requires forall k :: 0 <= k < |members| ==> Publishable(members[k], isKey, hash)
    ensures Convergence.Delivered(ReadAll(members, isKey, hash)) == Convergence.Delivered(Histories(members))
  {
    hide Publishable, Walk, Links, ReadLinks, Convergence.Delivered;
    if members != [] {
      var front, m := members[..|members| - 1], members[|members| - 1];
      EveryHistoryReadsBack(front, isKey, hash);
      HistoryReadsBack(m, isKey, hash);
      DeliveredConcat(ReadAll(front, isKey, hash), ReadLinks(Links(Walk(m.site, m.own).value), isKey, hash));
      DeliveredConcat(Histories(front), [m.own]);
      DeliveredOne(m.own);
    }
  }

  lemma {:induction false} DeliveredMembers(batches: seq<seq<Record>>)
    ensures forall r :: r in Convergence.Delivered(batches) <==> exists b :: b in batches && r in b
  {
    if batches != [] {
      DeliveredMembers(batches[..|batches| - 1]);
      assert batches == batches[..|batches| - 1] + [batches[|batches| - 1]];
    }
  }

  /// Any reader that has read every segment of every member's chain - in any
  /// order, any of them twice - holds what one handed the histories themselves
  /// would, and shows the same channel at the same time.
  lemma {:induction false} WhatIsWrittenIsShown(
      members: seq<Member>, read: seq<seq<Record>>, placement: View.Placement, authority: View.Authority,
      limits: Limits.ReaderLimits, now: i64, isKey: Id -> bool, hash: Bytes -> Id)
    requires forall k :: 0 <= k < |members| ==> Publishable(members[k], isKey, hash)
    requires RecordCodec.NoCollision(Convergence.Delivered(Histories(members)), hash)
    requires forall b :: b in read <==> b in ReadAll(members, isKey, hash)
    ensures var theirs := Convergence.AdmitAll(read, placement, authority, limits);
            var ours := Convergence.AdmitAll(Histories(members), placement, authority, limits);
            && theirs == ours
            && Render.Rendering(theirs, View.Hidden(limits, now, Limits.Refusals(theirs, limits).Keys))
               == Render.Rendering(ours, View.Hidden(limits, now, Limits.Refusals(ours, limits).Keys))
  {
    hide ReadAll, Convergence.AdmitAll, Convergence.Delivered, Render.Rendering, Limits.Refusals, View.Check,
         FaithfulIds, Publishable, Histories, View.Hidden, RecordCodec.NoCollision;
    EveryHistoryReadsBack(members, isKey, hash);
    DeliveredMembers(read);
    DeliveredMembers(ReadAll(members, isKey, hash));
    HistoriesAreFaithful(members, isKey, hash);
    var all := Convergence.Delivered(Histories(members));
    FaithfulOver(all, Convergence.Delivered(read));
    Convergence.ReadersConverge(read, Histories(members), placement, authority, limits, now);
  }

  lemma {:induction false} HistoriesAreFaithful(members: seq<Member>, isKey: Id -> bool, hash: Bytes -> Id)
    requires forall k :: 0 <= k < |members| ==> Publishable(members[k], isKey, hash)
    requires RecordCodec.NoCollision(Convergence.Delivered(Histories(members)), hash)
    ensures FaithfulIds(Convergence.Delivered(Histories(members)))
  {
    hide RecordCodec.WellFormed, RecordCodec.NoCollision, Publishable, Convergence.Delivered, Histories, FaithfulIds;
    var all := Convergence.Delivered(Histories(members));
    forall i | 0 <= i < |all| ensures RecordCodec.WellFormed(all[i], isKey, hash) {
      WrittenIsWellFormed(members, all[i], isKey, hash);
    }
    RecordCodec.IdentifiersNameRecords(all, isKey, hash);
  }

  lemma {:induction false} WrittenIsWellFormed(members: seq<Member>, r: Record, isKey: Id -> bool, hash: Bytes -> Id)
    requires forall k :: 0 <= k < |members| ==> Publishable(members[k], isKey, hash)
    requires r in Convergence.Delivered(Histories(members))
    ensures RecordCodec.WellFormed(r, isKey, hash)
  {
    hide RecordCodec.WellFormed, RecordCodec.Canonical, Convergence.Delivered, Histories, InOrder, Walk, Links;
    DeliveredMembers(Histories(members));
    HistoriesMean(members);
    var own :| own in Histories(members) && r in own;
    var k :| 0 <= k < |members| && members[k].own == own;
    assert Publishable(members[k], isKey, hash);
    var j :| 0 <= j < |own| && own[j] == r;
  }

  lemma {:induction false} HistoriesMean(members: seq<Member>)
    ensures forall own :: own in Histories(members) ==> exists k :: 0 <= k < |members| && members[k].own == own
  {
    if members != [] {
      var n := |members| - 1;
      HistoriesMean(members[..n]);
      forall own | own in Histories(members) ensures exists k :: 0 <= k < |members| && members[k].own == own {
        if own in Histories(members[..n]) {
          var k :| 0 <= k < n && members[..n][k].own == own;
          assert members[k].own == own;
        } else {
          assert members[n].own == own;
        }
      }
    }
  }
}
