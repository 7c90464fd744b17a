/**
  What a publishing pass puts out (crates/kols-node/src/serve.rs): the segments
  of the chain that retention still covers, and an index naming the head.
 */
module Publication {
  import opened Prelude
  import opened Records
  import opened Segments
  import opened Logs
  import opened LogRuns
  import opened Chain

  const DAY_MILLIS := 86_400_000

  /** How long a network keeps messages up. */
  datatype Retention = Forever | Days(window: u32) {
    predicate Covers(ageDays: u32) {
      match this
      case Forever => true
      case Days(window) => ageDays <= window
    }
  }

  /// Whether a segment whose newest record claims this time has aged out.
  predicate Retires(retention: Retention, newest: i64, now: i64) {
    var days := (if now > newest then now - newest else 0) / DAY_MILLIS;
    !retention.Covers(if days > U32_MAX then U32_MAX else days)
  }

  /// The time its newest record claims.
  function Newest(link: Log): i64
    requires link.segment.records != []
  {
    link.segment.records[|link.segment.records| - 1].hlc.wall
  }

  /// Judged on the newest record a segment carries.
  function Carried(retention: Retention, now: i64): Log -> bool {
    (link: Log) =>
      link.segment.records == [] || !Retires(retention, Newest(link), now)
  }

  /** Everything a pass puts out: what it carries of the chain, and the index. */
  datatype Output = Output(carried: seq<Log>, index: Option<Pointer>)

  function IndexOf(site: Site, head: u64): Pointer {
    Pointer(site.indexPointer, site.keyOf(site.indexPointer), head,
            SegmentBytes(Segment(site.channel, site.author, head, None, [])))
  }

  function PutOut(site: Site, p: Pass, retention: Retention, now: i64): Output {
    var links := Links(p);
    Output(Filter(links, Carried(retention, now)),
           if links == [] then None else Some(IndexOf(site, p.log.segment.sequence)))
  }

  /// What a pass has closed by the time it ends, at the end of the history or at
  /// the first record its log refuses.
  function Closed(site: Site, own: seq<Record>): seq<Log>
    requires |own| <= U64_MAX
  {
    if own == [] then []
    else
      var n := |own| - 1;
      match Walk(site, own[..n])
      case None => Closed(site, own[..n])
      case Some(p) => SequencesCount(site, own[..n]); Readied(site, p, own[n]).done
  }

  lemma {:induction false} SequencesCount(site: Site, own: seq<Record>)
    ensures Walk(site, own).Some? ==> Walk(site, own).value.log.segment.sequence <= |own|
  {
    hide SegmentBytes, ShouldSeal, Objection, NextPointer;
    if own != [] {
      SequencesCount(site, own[..|own| - 1]);
    }
  }

  /// What a record does to what is carried before it goes in: nothing, or the
  /// link it closed is looked at.
  lemma {:induction false} ReadyingCarries(site: Site, p: Pass, r: Record, retention: Retention, now: i64)
    requires p.log.segment.sequence < U64_MAX
    ensures var q := Readied(site, p, r);
            && |p.done| <= |q.done| <= |p.done| + 1
            && (|q.done| == |p.done| ==> q.done == p.done)
            && (|q.done| > |p.done| ==>
                  p.log.segment.records != []
                  && Filter(q.done, Carried(retention, now))
                     == Filter(p.done, Carried(retention, now))
                        + if Retires(retention, Newest(p.log), now) then [] else [q.done[|p.done|]])
  {
    hide SegmentBytes, Framed, NextPointer, Filter, Retires;
    var q := Readied(site, p, r);
    if |q.done| > |p.done| {
      assert q.done == p.done + [Published(p.log)];
      FilterAppend(p.done, Published(p.log), Carried(retention, now));
    }
  }

  lemma {:induction false} TakenIsLast(site: Site, p: Pass, r: Record)
    requires Take(site, p, r).Some?
    ensures var rs := Take(site, p, r).value.log.segment.records; rs != [] && rs[|rs| - 1] == r
  {
    hide SegmentBytes, Framed, ShouldSeal, Objection, NextPointer;
  }

  /// The first refusal settles what was closed.
  lemma {:induction false} ClosedAtTheRefusal(site: Site, own: seq<Record>, k: nat)
    requires k < |own| <= U64_MAX && Walk(site, own[..k]).Some? && Walk(site, own[..k + 1]).None?
    ensures Walk(site, own).None? && Walk(site, own[..k]).value.log.segment.sequence < U64_MAX
    ensures Closed(site, own) == Readied(site, Walk(site, own[..k]).value, own[k]).done
    decreases |own|
  {
    hide Take, Readied, Walk;
    RefusedOnce(site, own, k + 1);
    SequencesCount(site, own[..k]);
    var n := |own| - 1;
    if k < n {
      assert own[..n][..k] == own[..k] && own[..n][..k + 1] == own[..k + 1];
      ClosedAtTheRefusal(site, own[..n], k);
    }
  }

  /// What a pass puts out before it stops at a record: those closed segments that
  /// retention covers, and no index.
  function PutOutOf(site: Site, own: seq<Record>, retention: Retention, now: i64): Output
    requires |own| <= U64_MAX
  {
    match Walk(site, own)
    case None => Output(Filter(Closed(site, own), Carried(retention, now)), None)
    case Some(p) => PutOut(site, p, retention, now)
  }

  /// The pass of the source, through an `AuthorLog`, governance letting it
  /// publish. Where the log refuses a record it stops, its closed segments already out.
  method PublishOwnLog(site: Site, own: seq<Record>, retention: Retention, now: i64)
    returns (out: Output, stopped: bool)
    requires |own| <= U64_MAX
    ensures stopped <==> Walk(site, own).None?
    ensures out == PutOutOf(site, own, retention, now)
  {
    hide SegmentBytes, NextPointer, Take, Readied, Retires, Filter, Carried, IndexOf, Closed;
    var log := new AuthorLog(site.pointerOf, site.author, site.channel, site.KeyAt(0));
    var done: seq<Log> := [];
    var carried: seq<Log> := [];
    var newest: i64 := 0;
    NothingCarried(retention, now);
    for k := 0 to |own|
      invariant log.Valid() && fresh(log) && log.pointerOf == site.pointerOf
      invariant log.segment.sequence <= k
      invariant Walk(site, own[..k]) == Some(Pass(done, log.State()))
      invariant carried == Filter(done, Carried(retention, now))
      invariant log.segment.records != [] ==> newest == Newest(log.State())
    {
      assert own[..k + 1][..k] == own[..k];
      ghost var before := Pass(done, log.State());
      ReadyingCarries(site, before, own[k], retention, now);
      var closed, taken := TakeNext(site, log, done, own[k]);
      if |closed| > |done| && !Retires(retention, newest, now) {
        carried := carried + [closed[|done|]];
      }
      if !taken {
        ClosedAtTheRefusal(site, own, k);
        return Output(carried, None), true;
      }
      TakenIsLast(site, before, own[k]);
      newest := own[k].hlc.wall;
      done := closed;
    }
    assert own[..|own|] == own;
    if log.segment.records == [] {
      return Output([], None), false;
    }
    var _ := log.PublishCurrent(OPEN_GATE);
    FilterAppend(done, log.State(), Carried(retention, now));
    HeadIsCarried(log.State(), retention, now);
    if !Retires(retention, newest, now) {
      carried := carried + [log.State()];
    }
    var index := PublishHeadIndex(
      site.author, site.channel, log.segment.sequence, site.indexPointer, site.keyOf(site.indexPointer), OPEN_GATE);
    IndexIs(site, log.segment.sequence);
    out, stopped := Output(carried, Some(index.value)), false;
  }

  /// A pass stopped at a record has lost nothing it had closed: that is the chain
  /// of the records before the refused one, whole, or all of it but its open end.
  lemma {:induction false} AStoppedPassClosedAChain(site: Site, own: seq<Record>, k: nat)
    requires k < |own| <= U64_MAX && Walk(site, own[..k]).Some? && Walk(site, own[..k + 1]).None?
    ensures var links, closed := Links(Walk(site, own[..k]).value), Closed(site, own);
            && closed <= links && |links| <= |closed| + 1
            && IsChain(site, closed) && AllRecords(closed) <= own[..k]
  {
    hide SegmentBytes, Walk, IsChain, IsOpen, AllRecords, NextPointer, ShouldSeal, Closed;
    ClosedAtTheRefusal(site, own, k);
    PassBuildsAChain(site, own[..k]);
    PublishedChainIsTheHistory(site, own[..k]);
    var p := Walk(site, own[..k]).value;
    ReadiedIsClosed(site, p, own[k]);
    NothingClosedAtTheStart(site);
    assert Held(p) == own[..k];
  }

  /// A day from its first record to its last, the byte target, or with one record
  /// more the ceiling passed.
  ghost predicate IsDue(site: Site, segment: Segment, r: Record) {
    hide SegmentBytes, Framed;
    && segment.records != []
    && (|| segment.records[|segment.records| - 1].hlc.wall - segment.records[0].hlc.wall >= 86_400_000
        || |SegmentBytes(segment)| >= site.sealBytes
        || |SegmentBytes(segment)| + |Framed(r)| > site.segmentMax)
  }

  /// Whole exactly where that end was due to be closed before the refused record.
  lemma {:induction false} AStoppedPassClosedWhatWasDue(site: Site, own: seq<Record>, k: nat)
    requires 0 < k < |own| <= U64_MAX && Walk(site, own[..k]).Some? && Walk(site, own[..k + 1]).None?
    ensures var links := Links(Walk(site, own[..k]).value);
            links != [] && (Closed(site, own) == links <==> IsDue(site, links[|links| - 1].segment, own[k]))
  {
    hide SegmentBytes, Framed, Walk, IsChain, IsOpen, NextPointer, ShouldSeal, Closed, Links, IsDue;
    ClosedAtTheRefusal(site, own, k);
    PassBuildsAChain(site, own[..k]);
    var p := Walk(site, own[..k]).value;
    ReadiedIsClosed(site, p, own[k]);
    DueByNumbers(site, p.log.segment, own[k]);
    SameSegment(p.log);
    assert Links(p) == p.done + [Published(p.log)];
  }

  lemma {:induction false} SameSegment(log: Log)
    ensures Published(log).segment == log.segment
  {
    hide SegmentBytes;
  }

  lemma {:induction false} DueByNumbers(site: Site, segment: Segment, r: Record)
    ensures ShouldSeal(site, segment, r) <==> IsDue(site, segment, r)
  {
    hide SegmentBytes, Framed;
  }

  lemma {:induction false} ReadiedIsClosed(site: Site, p: Pass, r: Record)
    requires p.log.segment.sequence < U64_MAX
    ensures Readied(site, p, r).done == if ShouldSeal(site, p.log.segment, r) then Links(p) else p.done
    ensures p.log.segment.records != [] ==> Links(p) == p.done + [Published(p.log)]
  {
    hide SegmentBytes, Framed, NextPointer;
  }

  lemma {:induction false} NothingClosedAtTheStart(site: Site)
    ensures Walk(site, []).value.done == [] && Links(Walk(site, []).value) == []
  {
    hide SegmentBytes;
  }

  lemma {:induction false} HeadIsCarried(link: Log, retention: Retention, now: i64)
    requires link.segment.records != []
    ensures Carried(retention, now)(link) <==> !Retires(retention, Newest(link), now)
  {
  }

  lemma {:induction false} IndexIs(site: Site, head: u64)
    ensures IndexOf(site, head)
            == Pointer(site.indexPointer, site.keyOf(site.indexPointer), head,
                       SegmentBytes(Segment(site.channel, site.author, head, None, [])))
  {
  }

  lemma {:induction false} NothingCarried(retention: Retention, now: i64)
    ensures Filter<Log>([], Carried(retention, now)) == []
  {
  }

  // ------------------------------------------------------------------------
  // The index
  // ------------------------------------------------------------------------

  lemma {:induction false} HeadIsLast(site: Site, own: seq<Record>)
    requires Walk(site, own).Some? && own != []
    ensures var p := Walk(site, own).value;
            Links(p) == p.done + [Published(p.log)] && p.log.segment.sequence == |p.done|
  {
    hide SegmentBytes, Walk, IsLink, IsChain, NextPointer, Previous;
    PassBuildsAChain(site, own);
  }

  /// The index names the last link of the chain, at that link's sequence.
  lemma {:induction false} IndexNamesTheHead(site: Site, own: seq<Record>, retention: Retention, now: i64)
    requires Walk(site, own).Some?
    ensures own == [] ==> PutOut(site, Walk(site, own).value, retention, now) == Output([], None)
    ensures own != [] ==>
            var p := Walk(site, own).value;
            var links := Links(p);
            && links != [] && links[|links| - 1].segment.sequence == |links| - 1
            && PutOut(site, p, retention, now).index == Some(IndexOf(site, links[|links| - 1].segment.sequence))
  {
    NothingClosedAtTheStart(site);
    NothingCarried(retention, now);
    hide SegmentBytes, Walk, Links, NextPointer, IndexOf;
    if own != [] {
      HeadIsLast(site, own);
    }
  }

  /// And reads back as an empty segment saying so, whatever the sequence.
  lemma {:induction false} IndexReadsBack(site: Site, head: u64, isKey: Id -> bool, hash: Bytes -> Id)
    requires isKey(site.author)
    ensures TakeSegment(IndexOf(site, head).content, isKey, hash)
            == Ok(Segment(site.channel, site.author, head, None, []))
    ensures IndexOf(site, head).version == head
    ensures IndexOf(site, head).id == site.indexPointer && IndexOf(site, head).dek == site.keyOf(site.indexPointer)
  {
    EmptyIsWritable(Segment(site.channel, site.author, head, None, []), isKey, hash);
    hide SegmentBytes, TakeSegment, Writable;
    SegmentsRoundTrip(Segment(site.channel, site.author, head, None, []), isKey, hash);
  }

  lemma {:induction false} EmptyIsWritable(s: Segment, isKey: Id -> bool, hash: Bytes -> Id)
    requires isKey(s.author) && s.records == []
    ensures Writable(s, isKey, hash)
  {
  }

  /// A later pass's index supersedes this one's exactly when the chain has gained
  /// a link, and otherwise it is the same index.
  lemma {:induction false} LaterIndexSupersedes(
      site: Site, own: seq<Record>, more: seq<Record>, retention: Retention, now: i64, later: i64)
    requires Walk(site, own + more).Some? && Walk(site, own).Some? && own != []
    ensures var a := PutOut(site, Walk(site, own).value, retention, now).index;
            var b := PutOut(site, Walk(site, own + more).value, retention, later).index;
            && a.Some? && b.Some? && a.value.id == b.value.id
            && (a.value.version < b.value.version
                <==> |Links(Walk(site, own).value)| < |Links(Walk(site, own + more).value)|)
            && (a.value.version <= b.value.version)
            && (a.value.version == b.value.version ==> a == b)
  {
    hide SegmentBytes, Walk, Links, NextPointer;
    LaterPassesExtend(site, own, more);
    HeadIsLast(site, own);
    HeadIsLast(site, own + more);
  }

  // ------------------------------------------------------------------------
  // Retention
  // ------------------------------------------------------------------------

  /// When a segment retires: never where messages are kept for good, and otherwise
  /// once a day more than the window has gone by since its newest record. The
  /// longest window a `u32` names keeps them for good too.
  lemma {:induction false} RetiresMeans(retention: Retention, newest: i64, now: i64)
    ensures Retires(retention, newest, now) <==>
            && retention.Days?
            && retention.window < 0xFFFF_FFFF
            && now - newest >= (retention.window + 1) * 86_400_000
  {
  }

  /// What a pass puts out of a chain, by the age of each segment's newest record.
  lemma {:induction false} CarriedByAge(site: Site, own: seq<Record>, retention: Retention, now: i64, link: Log)
    requires Walk(site, own).Some?
    ensures link in PutOut(site, Walk(site, own).value, retention, now).carried <==>
            && link in Links(Walk(site, own).value)
            && (retention.Days? && retention.window < 0xFFFF_FFFF ==>
                  forall k :: k + 1 == |link.segment.records| && k >= 0 ==>
                    now - link.segment.records[k].hlc.wall < (retention.window + 1) * 86_400_000)
  {
    hide Walk, Retires, SegmentBytes, Filter;
    var links := Links(Walk(site, own).value);
    FilterMembers(links, Carried(retention, now));
    if link.segment.records != [] {
      RetiresMeans(retention, Newest(link), now);
    }
  }

  lemma {:induction false} RetiringOlder(retention: Retention, older: i64, newer: i64, now: i64, later: i64)
    requires older <= newer && now <= later
    ensures Retires(retention, newer, now) ==> Retires(retention, older, later)
  {
    var a, b := if now > newer then now - newer else 0, if later > older then later - older else 0;
    assert a <= b && a / DAY_MILLIS <= b / DAY_MILLIS;
  }

  /// The newest readings of successive links do not go back.
  predicate NewestAscend(links: seq<Log>) {
    forall i, j :: 0 <= i < j < |links| && links[i].segment.records != [] && links[j].segment.records != [] ==>
      Newest(links[i]) <= Newest(links[j])
  }

  lemma {:induction false} OrderedChainAscends(links: seq<Log>)
    requires InOrder(AllRecords(links))
    ensures NewestAscend(links)
  {
    if links != [] {
      var n := |links| - 1;
      var before := AllRecords(links[..n]);
      assert AllRecords(links) == before + links[n].segment.records;
      assert AllRecords(links)[..|before|] == before;
      OrderedPrefix(AllRecords(links), |before|);
      OrderedChainAscends(links[..n]);
      forall i | 0 <= i < n && links[i].segment.records != [] && links[n].segment.records != []
        ensures Newest(links[i]) <= Newest(links[n])
      {
        var at := LinkStands(links[..n], i);
        var last := at + |links[i].segment.records| - 1;
        assert before[at..at + |links[i].segment.records|][|links[i].segment.records| - 1] == before[last];
        WallsAscend(AllRecords(links), last);
      }
      forall i, j | 0 <= i < j < |links| && links[i].segment.records != [] && links[j].segment.records != []
        ensures Newest(links[i]) <= Newest(links[j])
      {
        assert j < n ==> links[..n][i] == links[i] && links[..n][j] == links[j];
      }
    }
  }

  /// Retention forgets from the oldest end: of an ordered history what is carried
  /// is the last so many links, and as time passes never one that was dropped.
  lemma {:induction false} RetentionForgetsTheOldest(
      site: Site, own: seq<Record>, retention: Retention, now: i64, later: i64)
    returns (dropped: nat, droppedLater: nat)
    requires Walk(site, own).Some? && InOrder(own) && now <= later
    ensures var links := Links(Walk(site, own).value);
            && dropped <= droppedLater <= |links|
            && PutOut(site, Walk(site, own).value, retention, now).carried == links[dropped..]
            && PutOut(site, Walk(site, own).value, retention, later).carried == links[droppedLater..]
  {
    hide SegmentBytes, Walk, InOrder, AllRecords, Retires, Links, IsChain, Filter, IndexOf;
    PublishedChainIsTheHistory(site, own);
    var links := Links(Walk(site, own).value);
    forall k | 0 <= k < |links| ensures links[k].segment.records != [] {
      LinkIsDetermined(site, links, k);
    }
    OrderedChainAscends(links);
    dropped := CarriedIsASuffix(links, retention, now);
    droppedLater := CarriedIsASuffix(links, retention, later);
    if droppedLater < dropped {
      RetiringOlder(retention, Newest(links[droppedLater]), Newest(links[droppedLater]), now, later);
    }
  }

  lemma {:induction false} CarriedIsASuffix(links: seq<Log>, retention: Retention, now: i64) returns (dropped: nat)
    requires NewestAscend(links) && forall k :: 0 <= k < |links| ==> links[k].segment.records != []
    ensures dropped <= |links| && Filter(links, Carried(retention, now)) == links[dropped..]
    ensures forall k :: 0 <= k < |links| ==> (Carried(retention, now)(links[k]) <==> k >= dropped)
  {
    hide Retires, Filter, Carried;
    if links == [] {
      NothingCarried(retention, now);
      dropped := 0;
    } else {
      var n := |links| - 1;
      var front, last := links[..n], links[n];
      assert links == front + [last];
      dropped := CarriedIsASuffix(front, retention, now);
      FilterAppend(front, last, Carried(retention, now));
      if Carried(retention, now)(last) {
        assert front[dropped..] + [last] == links[dropped..];
      } else {
        forall k | 0 <= k < n ensures !Carried(retention, now)(links[k]) {
          OlderIsDropped(retention, now, links[k], last);
        }
        FilterNone(links, Carried(retention, now));
        dropped := n + 1;
      }
    }
  }

  lemma {:induction false} OlderIsDropped(retention: Retention, now: i64, older: Log, newer: Log)
    requires older.segment.records != [] && newer.segment.records != [] && Newest(older) <= Newest(newer)
    requires !Carried(retention, now)(newer)
    ensures !Carried(retention, now)(older)
  {
    RetiringOlder(retention, Newest(older), Newest(newer), now, now);
  }
}
