/**
  The pass that publishes an author's whole history in a channel
  (crates/kols-node/src/serve.rs): the records walked in order through one log,
  sealing a segment before the record that would take it too far.
 */
module Chain {
  import opened Prelude
  import opened Records
  import opened Segments
  import opened Logs
  import RecordCodec

  /** What a pass is given: whose history, how pointers, keys and manifests
      follow from what they are for, and the two sizes a segment is cut at. */
  datatype Site = Site(
    author: Id, channel: Id, pointerOf: Derivation, indexPointer: Id, keyOf: Id -> Id, manifestOf: (Bytes, Id) -> Id,
    sealBytes: nat, segmentMax: nat)
  {
    function PointerAt(sequence: u64): Id {
      pointerOf(channel, author, sequence)
    }

    function KeyAt(sequence: u64): Id {
      keyOf(PointerAt(sequence))
    }

    function ManifestOf(done: Log): Id {
      manifestOf(SegmentBytes(done.segment), done.dek)
    }
  }

  const SEAL_SPAN := 86_400_000

  /// Whether the open segment is closed before this record goes in.
  predicate ShouldSeal(site: Site, segment: Segment, next: Record) {
    hide SegmentBytes, Framed;
    segment.records != []
    && (|SegmentBytes(segment)| >= site.sealBytes
        || |SegmentBytes(segment)| + |Framed(next)| > site.segmentMax
        || segment.records[|segment.records| - 1].hlc.wall - segment.records[0].hlc.wall >= SEAL_SPAN)
  }

  /** How far a pass has come: the segments it has published and closed, and the
      log it is writing. */
  datatype Pass = Pass(done: seq<Log>, log: Log)

  function Cut(site: Site, p: Pass): Pass
    requires p.log.segment.sequence < U64_MAX
  {
    hide SegmentBytes, NextPointer;
    var complete := Published(p.log);
    Pass(p.done + [complete],
         Sealed(site.pointerOf, complete, site.ManifestOf(complete), site.KeyAt(p.log.segment.sequence + 1)))
  }

  function Start(site: Site): Pass {
    Pass([], Opened(site.pointerOf, site.author, site.channel, site.KeyAt(0)))
  }

  /// The pass up to a record, or `None` where the log refuses one.
  function Walk(site: Site, own: seq<Record>): Option<Pass> {
    if own == [] then Some(Start(site))
    else
      match Walk(site, own[..|own| - 1])
      case None => None
      case Some(p) => Take(site, p, own[|own| - 1])
  }

  function Take(site: Site, p: Pass, r: Record): Option<Pass> {
    var sealing := ShouldSeal(site, p.log.segment, r);
    if sealing && p.log.segment.sequence == U64_MAX then None
    else
      var q := if sealing then Cut(site, p) else p;
      if Objection(q.log, site.author, r).None? then Some(q.(log := Extended(q.log, r))) else None
  }

  /// The pass as a record finds it: the open segment closed, where that is due.
  function Readied(site: Site, p: Pass, r: Record): Pass
    requires p.log.segment.sequence < U64_MAX
  {
    if ShouldSeal(site, p.log.segment, r) then Cut(site, p) else p
  }

  /// Everything a pass publishes: the closed segments, then the open one.
  function Links(p: Pass): seq<Log> {
    if p.log.segment.records == [] then [] else p.done + [Published(p.log)]
  }

  // ------------------------------------------------------------------------
  // One pass
  // ------------------------------------------------------------------------

  /// One record of the walk: a seal before it where one is due, then a push. What
  /// the seal closed stays closed where the push is refused.
  method TakeNext(site: Site, log: AuthorLog, done: seq<Log>, r: Record) returns (closed: seq<Log>, taken: bool)
    requires log.Valid() && log.pointerOf == site.pointerOf && log.segment.sequence < U64_MAX
    modifies log
    ensures log.Valid() && log.segment.sequence <= old(log.segment.sequence) + 1
    ensures closed == Readied(site, Pass(done, old(log.State())), r).done
    ensures Take(site, Pass(done, old(log.State())), r) == if taken then Some(Pass(closed, log.State())) else None
  {
    hide SegmentBytes, Framed, HeaderBytes, Objection, ShouldSeal, NextPointer;
    closed := done;
    if ShouldSeal(site, log.segment, r) {
      var _ := log.PublishCurrent(OPEN_GATE);
      var complete := log.State();
      closed := done + [complete];
      log.Seal(site.ManifestOf(complete), site.KeyAt(complete.segment.sequence + 1));
    }
    var objection := log.Push(site.author, r);
    taken := objection.None?;
  }

  lemma {:induction false} RefusedOnce(site: Site, own: seq<Record>, k: nat)
    requires k <= |own|
    ensures Walk(site, own[..k]).None? ==> Walk(site, own).None?
    decreases |own|
  {
    hide Take;
    if k == |own| {
      assert own[..k] == own;
    } else {
      var front := own[..|own| - 1];
      RefusedOnce(site, front, k);
      assert front[..k] == own[..k];
    }
  }

  // ------------------------------------------------------------------------
  // What a pass builds
  // ------------------------------------------------------------------------

  function AllRecords(links: seq<Log>): seq<Record> {
    if links == [] then [] else AllRecords(links[..|links| - 1]) + links[|links| - 1].segment.records
  }

  function Previous(site: Site, before: seq<Log>): Option<Id> {
    if before == [] then None else Some(site.ManifestOf(before[|before| - 1]))
  }

  /// No record of a segment went in past a point where it was due to be closed.
  predicate NowhereDue(site: Site, segment: Segment) {
    forall j :: 0 < j < |segment.records| ==>
      !ShouldSeal(site, segment.(records := segment.records[..j]), segment.records[j])
  }

  /// A segment of the chain: where it stands, what it points back to, and as
  /// small as its records let it be.
  predicate IsLink(site: Site, before: seq<Log>, segment: Segment) {
    && |before| <= U64_MAX
    && segment.channel == site.channel && segment.author == site.author
    && segment.sequence == |before| && segment.previous == Previous(site, before)
    && segment.records != []
    && (|segment.records| > 1 ==> |SegmentBytes(segment)| <= site.segmentMax)
    && NowhereDue(site, segment)
  }

  /// What is published for it: version one less than its records, the pointer
  /// naming the whole segment.
  predicate Publishes(site: Site, link: Log) {
    hide SegmentBytes;
    && link.channel == site.channel && link.unpublished == 0 && link.segment.records != []
    && link.pointerId == site.PointerAt(link.segment.sequence) && link.dek == site.KeyAt(link.segment.sequence)
    && link.pointer == Some(Pointer(link.pointerId, link.dek, |link.segment.records| - 1, SegmentBytes(link.segment)))
  }

  predicate IsChain(site: Site, links: seq<Log>) {
    forall k :: 0 <= k < |links| ==> IsLink(site, links[..k], links[k].segment) && Publishes(site, links[k])
  }

  /// The log a pass is writing, part-way.
  predicate IsOpen(site: Site, p: Pass) {
    hide SegmentBytes, IsLink;
    && |p.done| <= U64_MAX
    && (p.log.segment.records == [] || IsLink(site, p.done, p.log.segment))
    && p.log == Log(site.channel, site.PointerAt(|p.done|), site.KeyAt(|p.done|),
                    Segment(site.channel, site.author, |p.done|, Previous(site, p.done), p.log.segment.records),
                    None, |p.log.segment.records|)
  }

  lemma {:induction false} ChainGrows(site: Site, links: seq<Log>, link: Log)
    requires IsChain(site, links) && IsLink(site, links, link.segment) && Publishes(site, link)
    ensures IsChain(site, links + [link])
    ensures AllRecords(links + [link]) == AllRecords(links) + link.segment.records
  {
    hide IsLink, Publishes;
    var more := links + [link];
    assert more[..|links|] == links;
    forall k | 0 <= k < |more| ensures IsLink(site, more[..k], more[k].segment) && Publishes(site, more[k]) {
      if k < |links| {
        assert more[..k] == links[..k] && more[k] == links[k];
      }
    }
  }

  /// Closing what was open makes it the chain's last link.
  lemma {:induction false} OpenBecomesLink(site: Site, p: Pass)
    requires IsOpen(site, p) && p.log.segment.records != []
    ensures IsLink(site, p.done, Published(p.log).segment) && Publishes(site, Published(p.log))
  {
    hide SegmentBytes, NowhereDue;
  }

  lemma {:induction false} OpenGrows(site: Site, p: Pass, r: Record)
    requires IsOpen(site, p) && !ShouldSeal(site, p.log.segment, r)
    ensures IsOpen(site, p.(log := Extended(p.log, r)))
  {
    hide SegmentBytes, Framed, ShouldSeal;
    AppendExtends(p.log.segment, r);
    StillNowhereDue(site, p.log.segment, r);
    if p.log.segment.records != [] {
      UnsealedFits(site, p.log.segment, r);
    }
  }

  lemma {:induction false} UnsealedFits(site: Site, segment: Segment, r: Record)
    requires segment.records != [] && !ShouldSeal(site, segment, r)
    ensures |SegmentBytes(segment)| + |Framed(r)| <= site.segmentMax
  {
  }

  lemma {:induction false} StillNowhereDue(site: Site, segment: Segment, r: Record)
    requires segment.records == [] || NowhereDue(site, segment)
    requires !ShouldSeal(site, segment, r)
    ensures NowhereDue(site, segment.(records := segment.records + [r]))
  {
    hide SegmentBytes, Framed, ShouldSeal;
    var rs := segment.records;
    var more := segment.(records := rs + [r]);
    forall j | 0 < j < |more.records| ensures !ShouldSeal(site, more.(records := more.records[..j]), more.records[j]) {
      assert more.records[..j] == rs[..j];
      assert more.(records := rs[..j]) == segment.(records := rs[..j]);
      if j == |rs| {
        assert segment.(records := rs[..j]) == segment;
      }
    }
  }

  lemma {:induction false} CutOpens(site: Site, p: Pass)
    requires IsOpen(site, p) && p.log.segment.sequence < U64_MAX && p.log.segment.records != []
    ensures IsOpen(site, Cut(site, p)) && Cut(site, p).log.segment.records == []
    ensures Cut(site, p).done == p.done + [Published(p.log)]
  {
    hide SegmentBytes, IsLink;
  }

  /// All a pass holds so far, closed or open.
  function Held(p: Pass): seq<Record> {
    AllRecords(p.done) + p.log.segment.records
  }

  lemma {:induction false} CutKeepsTheChain(site: Site, p: Pass)
    requires IsChain(site, p.done) && IsOpen(site, p) && p.log.segment.sequence < U64_MAX && p.log.segment.records != []
    ensures IsChain(site, Cut(site, p).done) && IsOpen(site, Cut(site, p)) && Cut(site, p).log.segment.records == []
    ensures Held(Cut(site, p)) == Held(p)
  {
    hide SegmentBytes, IsChain, IsOpen, IsLink, Publishes, NextPointer, Cut, AllRecords;
    CutOpens(site, p);
    OpenBecomesLink(site, p);
    ChainGrows(site, p.done, Published(p.log));
  }

  lemma {:induction false} TakeKeepsTheChain(site: Site, p: Pass, r: Record)
    requires IsChain(site, p.done) && IsOpen(site, p) && Take(site, p, r).Some?
    ensures var q := Take(site, p, r).value;
            IsChain(site, q.done) && IsOpen(site, q) && Held(q) == Held(p) + [r] && q.log.segment.records != []
  {
    hide SegmentBytes, Framed, IsChain, IsOpen, Objection, ShouldSeal, Cut;
    var q := p;
    if ShouldSeal(site, p.log.segment, r) {
      SealingNeedsRecords(site, p.log.segment, r);
      CutKeepsTheChain(site, p);
      q := Cut(site, p);
      EmptyIsNotSealed(site, q.log.segment, r);
    }
    OpenGrows(site, q, r);
  }

  /// A pass loses no record, repeats none and keeps their order; and what it
  /// leaves behind is a chain of full links and one still being written.
  lemma {:induction false} PassBuildsAChain(site: Site, own: seq<Record>)
    requires Walk(site, own).Some?
    ensures var p := Walk(site, own).value; IsChain(site, p.done) && IsOpen(site, p) && Held(p) == own
    ensures own != [] ==> Walk(site, own).value.log.segment.records != []
  {
    hide IsChain, IsOpen, Take, Held, Start;
    if own == [] {
      StartIsOpen(site);
    } else {
      var n := |own| - 1;
      var front, r := own[..n], own[n];
      PassBuildsAChain(site, front);
      var p := Walk(site, front).value;
      assert Walk(site, own) == Take(site, p, r);
      TakeKeepsTheChain(site, p, r);
      assert own == front + [r];
    }
  }

  lemma {:induction false} StartIsOpen(site: Site)
    ensures IsChain(site, []) && IsChain(site, Start(site).done)
    ensures IsOpen(site, Start(site)) && Held(Start(site)) == []
  {
    hide SegmentBytes, IsLink, Publishes;
  }

  lemma {:induction false} SealingNeedsRecords(site: Site, segment: Segment, r: Record)
    requires ShouldSeal(site, segment, r)
    ensures segment.records != []
  {
  }

  lemma {:induction false} EmptyIsNotSealed(site: Site, segment: Segment, r: Record)
    requires segment.records == []
    ensures !ShouldSeal(site, segment, r)
  {
  }

  /// What a pass publishes is a whole chain: consecutive sequences, each linked
  /// to the one before it by its manifest, each under its own pointer and key,
  /// none past the ceiling unless a single record already is; and together they
  /// hold the history, record for record.
  lemma {:induction false} PublishedChainIsTheHistory(site: Site, own: seq<Record>)
    requires Walk(site, own).Some?
    ensures var links := Links(Walk(site, own).value);
            IsChain(site, links) && AllRecords(links) == own && (own != [] ==> links != [])
  {
    hide SegmentBytes, IsChain, IsOpen, IsLink, Publishes, NextPointer, Walk;
    PassBuildsAChain(site, own);
    var p := Walk(site, own).value;
    if p.log.segment.records != [] {
      OpenBecomesLink(site, p);
      ChainGrows(site, p.done, Published(p.log));
    } else {
      StartIsOpen(site);
    }
  }

  /// Every segment but the last was closed because the record after it was due
  /// a new one.
  predicate ClosedWhereDue(site: Site, links: seq<Log>) {
    forall k :: 0 < k < |links| ==> DueBefore(site, links[k - 1].segment, links[k].segment.records)
  }

  predicate DueBefore(site: Site, closed: Segment, next: seq<Record>) {
    next != [] ==> ShouldSeal(site, closed, next[0])
  }

  lemma {:induction false} TakeClosesWhereDue(site: Site, p: Pass, r: Record)
    requires ClosedWhereDue(site, Links(p)) && Take(site, p, r).Some?
    requires p.log.segment.records == [] ==> p.done == []
    ensures ClosedWhereDue(site, Links(Take(site, p, r).value))
  {
    hide SegmentBytes, Framed, ShouldSeal, Objection, NextPointer;
    var q := Take(site, p, r).value;
    var links, later := Links(p), Links(q);
    assert later == q.done + [Published(q.log)];
    if ShouldSeal(site, p.log.segment, r) {
      SealingNeedsRecords(site, p.log.segment, r);
      assert links == p.done + [Published(p.log)] && q.done == links;
      assert later[|links|].segment.records == [r];
      forall k | 0 < k < |later| ensures DueBefore(site, later[k - 1].segment, later[k].segment.records) {
        assert k < |links| ==> later[k] == links[k] && later[k - 1] == links[k - 1]
                               && DueBefore(site, links[k - 1].segment, links[k].segment.records);
      }
    } else if p.log.segment.records != [] {
      assert links == p.done + [Published(p.log)] && q.done == p.done;
      forall k | 0 < k < |later| ensures DueBefore(site, later[k - 1].segment, later[k].segment.records) {
        assert later[k - 1] == links[k - 1];
        assert DueBefore(site, links[k - 1].segment, links[k].segment.records);
        assert k < |p.done| ==> later[k] == links[k];
      }
    }
  }

  /// With `NowhereDue` of each segment this fixes every cut: a segment is closed
  /// before the first record it is due to be closed before, and nowhere else.
  lemma {:induction false} SegmentsCloseWhereDue(site: Site, own: seq<Record>)
    requires Walk(site, own).Some?
    ensures ClosedWhereDue(site, Links(Walk(site, own).value))
    ensures own == [] ==> Walk(site, own).value.done == []
  {
    hide Take, ClosedWhereDue, IsChain, IsOpen, Links;
    if own == [] {
      NothingClosed(site);
    } else {
      var front, r := own[..|own| - 1], own[|own| - 1];
      SegmentsCloseWhereDue(site, front);
      PassBuildsAChain(site, front);
      var p := Walk(site, front).value;
      assert Walk(site, own) == Take(site, p, r);
      TakeClosesWhereDue(site, p, r);
    }
  }

  lemma {:induction false} NothingClosed(site: Site)
    ensures ClosedWhereDue(site, Links(Start(site)))
  {
  }

  /// The two cuts in their own numbers. Until its last record every segment was
  /// less than a day long, short of the target and, with the next record's frame,
  /// within the ceiling.
  lemma {:induction false} SegmentsStayShort(site: Site, own: seq<Record>, k: nat, j: nat)
    requires Walk(site, own).Some? && k < |Links(Walk(site, own).value)|
    requires 0 < j < |Links(Walk(site, own).value)[k].segment.records|
    ensures var segment := Links(Walk(site, own).value)[k].segment;
            var before := segment.(records := segment.records[..j]);
            && segment.records[j - 1].hlc.wall - segment.records[0].hlc.wall < 86_400_000
            && |SegmentBytes(before)| < site.sealBytes
            && |SegmentBytes(before)| + |Framed(segment.records[j])| <= site.segmentMax
  {
    hide SegmentBytes, Framed, Walk, Links, Publishes, AllRecords;
    PublishedChainIsTheHistory(site, own);
    var links := Links(Walk(site, own).value);
    assert IsLink(site, links[..k], links[k].segment);
    NotDue(site, links[k].segment, j);
  }

  lemma {:induction false} NotDue(site: Site, segment: Segment, j: nat)
    requires NowhereDue(site, segment) && 0 < j < |segment.records|
    ensures segment.records[j - 1].hlc.wall - segment.records[0].hlc.wall < 86_400_000
    ensures |SegmentBytes(segment.(records := segment.records[..j]))| < site.sealBytes
    ensures |SegmentBytes(segment.(records := segment.records[..j]))| + |Framed(segment.records[j])| <= site.segmentMax
  {
    hide SegmentBytes, Framed;
    assert !ShouldSeal(site, segment.(records := segment.records[..j]), segment.records[j]);
  }

  /// And with the record that came after it a closed segment would have failed
  /// one of the three.
  lemma {:induction false} ClosedSegmentsAreFull(site: Site, own: seq<Record>, k: nat)
    requires Walk(site, own).Some? && k + 1 < |Links(Walk(site, own).value)|
    ensures var links := Links(Walk(site, own).value);
            var segment, next := links[k].segment, links[k + 1].segment.records;
            && segment.records != [] && next != []
            && (|| segment.records[|segment.records| - 1].hlc.wall - segment.records[0].hlc.wall >= 86_400_000
                || |SegmentBytes(segment)| >= site.sealBytes
                || |SegmentBytes(segment)| + |Framed(next[0])| > site.segmentMax)
  {
    hide SegmentBytes, Framed, Walk, Links, Publishes, AllRecords, NowhereDue, Previous;
    PublishedChainIsTheHistory(site, own);
    SegmentsCloseWhereDue(site, own);
    var links := Links(Walk(site, own).value);
    assert IsLink(site, links[..k], links[k].segment) && IsLink(site, links[..k + 1], links[k + 1].segment);
    assert DueBefore(site, links[k + 1 - 1].segment, links[k + 1].segment.records);
  }

  // ------------------------------------------------------------------------
  // A later pass
  // ------------------------------------------------------------------------

  /// A longer chain that every link of a shorter one is found again in: all but
  /// the last as they were, the last with records only added at its end.
  predicate Extends(site: Site, later: seq<Log>, links: seq<Log>) {
    links == []
    || (var n := |links| - 1;
        && n < |later| && later[..n] == links[..n]
        && links[n].segment.records <= later[n].segment.records)
  }

  lemma {:induction false} OneMoreRecord(site: Site, p: Pass, r: Record)
    requires Take(site, p, r).Some?
    ensures Extends(site, Links(Take(site, p, r).value), Links(p))
  {
    hide SegmentBytes, Framed, NextPointer, Objection, ShouldSeal;
    if p.log.segment.records != [] {
      var q := Take(site, p, r).value;
      var links, later := Links(p), Links(q);
      var n := |p.done|;
      assert links == p.done + [Published(p.log)] && later == q.done + [Published(q.log)];
      assert links[..n] == p.done;
      if ShouldSeal(site, p.log.segment, r) {
        assert q.done == links;
        assert later[..n] == links[..n] && later[n] == links[n];
      } else {
        assert q.done == p.done && q.log == Extended(p.log, r);
        assert later[..n] == p.done;
        assert later[n].segment.records == links[n].segment.records + [r];
      }
    }
  }

  lemma {:induction false} OneMoreOfWalk(site: Site, own: seq<Record>, r: Record)
    requires Walk(site, own + [r]).Some?
    ensures Walk(site, own).Some?
    ensures Extends(site, Links(Walk(site, own + [r]).value), Links(Walk(site, own).value))
  {
    hide Take, Links, Extends;
    assert (own + [r])[..|own|] == own;
    OneMoreRecord(site, Walk(site, own).value, r);
  }

  /// A pass over a longer history republishes every closed segment exactly as
  /// it was, so nothing already fetched is fetched again, and only adds to the
  /// head.
  lemma {:induction false} LaterPassesExtend(site: Site, own: seq<Record>, more: seq<Record>)
    requires Walk(site, own + more).Some?
    ensures Walk(site, own).Some?
    ensures Extends(site, Links(Walk(site, own + more).value), Links(Walk(site, own).value))
    decreases |more|
  {
    hide Walk, Links;
    if more == [] {
      assert own + more == own;
    } else {
      var n := |more| - 1;
      var middle := own + more[..n];
      assert own + more == middle + [more[n]];
      assert (own + more)[..|middle|] == middle;
      OneMoreOfWalk(site, middle, more[n]);
      LaterPassesExtend(site, own, more[..n]);
      var a, b, c := Links(Walk(site, own).value), Links(Walk(site, middle).value), Links(Walk(site, own + more).value);
      if a != [] && |b| > |a| {
        assert c[|a| - 1] == c[..|b| - 1][|a| - 1] == b[|a| - 1];
        assert c[..|a| - 1] == c[..|b| - 1][..|a| - 1] == b[..|a| - 1];
      }
    }
  }

  /// What a link has to be, given the links before it and its records.
  function LinkOf(site: Site, before: seq<Log>, records: seq<Record>): Log
    requires |before| <= U64_MAX && records != []
  {
    hide SegmentBytes, Previous;
    var segment := Segment(site.channel, site.author, |before|, Previous(site, before), records);
    var pointer := Pointer(site.PointerAt(|before|), site.KeyAt(|before|), |records| - 1, SegmentBytes(segment));
    Log(site.channel, pointer.id, pointer.dek, segment, Some(pointer), 0)
  }

  lemma {:induction false} LinkIsDetermined(site: Site, links: seq<Log>, k: nat)
    requires IsChain(site, links) && k < |links|
    ensures k <= U64_MAX && links[k].segment.records != []
    ensures links[k] == LinkOf(site, links[..k], links[k].segment.records)
  {
    hide SegmentBytes, NowhereDue;
    assert IsLink(site, links[..k], links[k].segment) && Publishes(site, links[k]);
  }

  /// A link republished by a later pass keeps its pointer and key; its version
  /// is higher exactly when it has more records, and otherwise it is the same
  /// publication.
  lemma {:induction false} RepublishedLinkSupersedes(site: Site, own: seq<Record>, more: seq<Record>, k: nat)
    requires Walk(site, own + more).Some?
    requires Walk(site, own).Some? && k < |Links(Walk(site, own).value)|
    ensures k < |Links(Walk(site, own + more).value)|
    ensures var link, later := Links(Walk(site, own).value)[k], Links(Walk(site, own + more).value)[k];
            && link.pointer.Some? && later.pointer.Some?
            && later.pointer.value.id == link.pointer.value.id && later.pointer.value.dek == link.pointer.value.dek
            && later.pointer.value.version >= link.pointer.value.version
            && (later.pointer.value.version == link.pointer.value.version <==> later == link)
  {
    hide SegmentBytes, Walk, Links, AllRecords, IsChain, Previous, Extends;
    LaterPassesExtend(site, own, more);
    PublishedChainIsTheHistory(site, own);
    PublishedChainIsTheHistory(site, own + more);
    var links, later := Links(Walk(site, own).value), Links(Walk(site, own + more).value);
    StillThere(site, later, links, k);
    LinkIsDetermined(site, links, k);
    LinkIsDetermined(site, later, k);
    var short, long := links[k].segment.records, later[k].segment.records;
    if |long| == |short| {
      assert long == short;
    }
  }

  lemma {:induction false} StillThere(site: Site, later: seq<Log>, links: seq<Log>, k: nat)
    requires Extends(site, later, links) && k < |links|
    ensures k < |later| && later[..k] == links[..k] && links[k].segment.records <= later[k].segment.records
  {
    var n := |links| - 1;
    assert later[..k] == later[..n][..k] && links[..k] == links[..n][..k];
    if k < n {
      assert later[k] == later[..n][k] && links[k] == links[..n][k];
    }
  }

  // ------------------------------------------------------------------------
  // Readers
  // ------------------------------------------------------------------------

  /// A history in order is published whole: no record is refused.
  lemma {:induction false} OrderedHistoryIsAccepted(site: Site, own: seq<Record>)
    requires InOrder(own) && |own| <= U64_MAX
    requires forall r :: r in own ==> r.channel == site.channel && r.author == site.author
    ensures Walk(site, own).Some? && |Walk(site, own).value.done| <= |own|
  {
    hide SegmentBytes, Framed, NextPointer, ShouldSeal, LastOf;
    if own != [] {
      var n := |own| - 1;
      var front, r := own[..n], own[n];
      assert r in own;
      OrderedPrefix(own, n);
      OrderedHistoryIsAccepted(site, front);
      PassBuildsAChain(site, front);
      var p := Walk(site, front).value;
      AfterItsDevice(own, p.log.segment.records, |AllRecords(p.done)|);
      NothingBefore(r.device);
    }
  }

  lemma {:induction false} NothingBefore(device: Id)
    ensures LastOf([], device) == None
  {
  }

  lemma {:induction false} OrderedPrefix(own: seq<Record>, n: nat)
    requires InOrder(own) && n <= |own|
    ensures InOrder(own[..n])
  {
  }

  /// The last record of an ordered history is past its device's last in any run
  /// of the records just before it.
  lemma {:induction false} AfterItsDevice(own: seq<Record>, tail: seq<Record>, from: nat)
    requires InOrder(own) && own != [] && from + |tail| == |own| - 1 && own[from..|own| - 1] == tail
    ensures var r := own[|own| - 1];
            LastOf(tail, r.device).Some? ==> LastOf(tail, r.device).value.Less(r.hlc)
    decreases |tail|
  {
    LastHasIndex(tail, own[|own| - 1].device);
  }

  lemma {:induction false} LastHasIndex(tail: seq<Record>, device: Id)
    ensures LastOf(tail, device).Some? ==>
              exists k :: 0 <= k < |tail| && tail[k].device == device && tail[k].hlc == LastOf(tail, device).value
  {
    if tail != [] && tail[|tail| - 1].device != device {
      LastHasIndex(tail[..|tail| - 1], device);
    }
  }

  /// A contiguous part of an ordered history is in order.
  lemma {:induction false} OrderedPart(own: seq<Record>, i: nat, j: nat)
    requires InOrder(own) && i <= j <= |own|
    ensures InOrder(own[i..j])
  {
  }

  /// Where a link's records stand in the history.
  lemma {:induction false} LinkStands(links: seq<Log>, k: nat) returns (i: nat)
    requires k < |links|
    ensures i + |links[k].segment.records| <= |AllRecords(links)|
    ensures AllRecords(links)[i..i + |links[k].segment.records|] == links[k].segment.records
  {
    var n := |links| - 1;
    if k == n {
      i := |AllRecords(links[..n])|;
    } else {
      i := LinkStands(links[..n], k);
    }
  }

  lemma {:induction false} LinkIsPart(site: Site, own: seq<Record>, k: nat, isKey: Id -> bool, hash: Bytes -> Id)
    requires Walk(site, own).Some? && k < |Links(Walk(site, own).value)|
    requires InOrder(own) && isKey(site.author) && AllWellFormed(own, isKey, hash)
    ensures var link := Links(Walk(site, own).value)[k];
            && InOrder(link.segment.records) && Writable(link.segment, isKey, hash)
            && link.pointer.Some? && link.pointer.value.content == SegmentBytes(link.segment)
  {
    hide SegmentBytes, Walk, Links, InOrder, AllRecords, NowhereDue, IsChain, Previous, AllWellFormed;
    PublishedChainIsTheHistory(site, own);
    var links := Links(Walk(site, own).value);
    LinkIsDetermined(site, links, k);
    var records := links[k].segment.records;
    var i := LinkStands(links, k);
    OrderedPart(own, i, i + |records|);
    PartIsWritable(own, i, i + |records|, isKey, hash);
  }

  /// Every link of an ordered history is in order, and reads
  /// back exactly when it holds no more records than a reader takes. Nothing
  /// the pass seals by keeps it under that.
  lemma {:induction false} LinksReadBack(site: Site, own: seq<Record>, k: nat, isKey: Id -> bool, hash: Bytes -> Id)
    requires Walk(site, own).Some? && k < |Links(Walk(site, own).value)|
    requires InOrder(own) && isKey(site.author) && AllWellFormed(own, isKey, hash)
    ensures var link := Links(Walk(site, own).value)[k];
            && InOrder(link.segment.records)
            && link.pointer.Some?
            && TakeSegment(link.pointer.value.content, isKey, hash)
               == if |link.segment.records| <= MAX_RECORDS_PER_SEGMENT then Ok(link.segment) else Err(TooManyRecords)
  {
    hide SegmentBytes, Walk, Links, InOrder, TakeSegment, Writable, AllWellFormed;
    LinkIsPart(site, own, k, isKey, hash);
    SegmentsRoundTrip(Links(Walk(site, own).value)[k].segment, isKey, hash);
  }

  lemma {:induction false} PartIsWritable(own: seq<Record>, i: nat, j: nat, isKey: Id -> bool, hash: Bytes -> Id)
    requires AllWellFormed(own, isKey, hash) && i <= j <= |own|
    ensures AllWellFormed(own[i..j], isKey, hash)
  {
    hide RecordCodec.WellFormed, RecordCodec.Canonical;
    var part := own[i..j];
    forall k | 0 <= k < |part| ensures part[k] == own[i + k] {}
  }

  /// The segment a history is when nothing cuts it.
  function Uncut(site: Site, own: seq<Record>): Segment {
    Segment(site.channel, site.author, 0, None, own)
  }

  /// A pass cuts by bytes and by age alone. A history short of both is one
  /// segment however many records it has, and so past the readers' bound one
  /// that no reader takes.
  lemma {:induction false} OnlySizeAndAgeCut(site: Site, own: seq<Record>, isKey: Id -> bool, hash: Bytes -> Id)
    requires InOrder(own) && own != [] && |own| <= U64_MAX
    requires forall r :: r in own ==> r.channel == site.channel && r.author == site.author
    requires |SegmentBytes(Uncut(site, own))| <= site.sealBytes && |SegmentBytes(Uncut(site, own))| <= site.segmentMax
    requires own[|own| - 1].hlc.wall - own[0].hlc.wall < SEAL_SPAN
    requires isKey(site.author) && AllWellFormed(own, isKey, hash)
    ensures Walk(site, own).Some? && |Links(Walk(site, own).value)| == 1
    ensures var link := Links(Walk(site, own).value)[0];
            link.segment == Uncut(site, own) && link.pointer.Some?
            && (TakeSegment(link.pointer.value.content, isKey, hash) == Ok(Uncut(site, own))
                <==> |own| <= MAX_RECORDS_PER_SEGMENT)
  {
    hide SegmentBytes, Walk, InOrder, TakeSegment, AllRecords, IsChain, AllWellFormed;
    OrderedHistoryIsAccepted(site, own);
    NothingIsCut(site, own);
    LinksReadBack(site, own, 0, isKey, hash);
  }

  lemma {:induction false} NothingIsCut(site: Site, own: seq<Record>)
    requires InOrder(own) && Walk(site, own).Some?
    requires |SegmentBytes(Uncut(site, own))| <= site.sealBytes && |SegmentBytes(Uncut(site, own))| <= site.segmentMax
    requires own != [] ==> own[|own| - 1].hlc.wall - own[0].hlc.wall < SEAL_SPAN
    ensures Walk(site, own).value.done == [] && Walk(site, own).value.log.segment == Uncut(site, own)
  {
    hide SegmentBytes, Framed, Objection, NextPointer;
    if own != [] {
      var n := |own| - 1;
      var front, r := own[..n], own[n];
      assert own == front + [r];
      AppendExtends(Uncut(site, front), r);
      FramesAreNotEmpty(r);
      OrderedPrefix(own, n);
      if n > 0 {
        WallsAscend(own, n - 1);
      }
      NothingIsCut(site, front);
    }
  }

  lemma {:induction false} WallsAscend(own: seq<Record>, k: nat)
    requires InOrder(own) && k < |own|
    ensures own[k].hlc.wall <= own[|own| - 1].hlc.wall
  {
    assert k == |own| - 1 || own[k].Position().Less(own[|own| - 1].Position());
  }
}
