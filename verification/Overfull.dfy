/**
  A history that the publishing pass leaves in one piece and no reader takes:
  withdrawals a millisecond apart, at the sizes the program ships with
  (crates/kols-node/src/serve.rs, crates/kols-core/src/policy.rs).
 */
module Overfull {
  import opened Prelude
  import opened Records
  import opened Wire
  import opened Segments
  import opened Logs
  import opened Chain
  import Delivery
  import RecordCodec

  const SEAL_TARGET_BYTES := 4_194_304
  const SEGMENT_MAX_BYTES := 8_388_608

  /// What one withdrawal takes in a segment, and what goes ahead of the records.
  const FRAME_BYTES := 244
  const HEADER_BYTES := 105

  /// More records of this size than the thresholds let through.
  const MOST := 17_000

  function Unnamed(site: Site, k: i64): Record {
    Record(0, site.channel, site.author, site.author, Hlc(k, 0), Tombstone(0), BLANK_SIGNATURE)
  }

  /// The k-th withdrawal, named by the hash of its bytes.
  function Withdrawal(site: Site, k: i64, hash: Bytes -> Id): Record {
    Unnamed(site, k).(id := hash(RecordCodec.Canonical(Unnamed(site, k))))
  }

  function Withdrawals(site: Site, n: nat, hash: Bytes -> Id): (own: seq<Record>)
    requires n <= MOST
    ensures |own| == n
  {
    hide Withdrawal;
    if n == 0 then [] else Withdrawals(site, n - 1, hash) + [Withdrawal(site, n - 1, hash)]
  }

  lemma {:induction false} WithdrawalAt(site: Site, n: nat, hash: Bytes -> Id, k: nat)
    requires k < n <= MOST
    ensures Withdrawals(site, n, hash)[k] == Withdrawal(site, k, hash)
  {
    hide Withdrawal;
    if k < n - 1 {
      WithdrawalAt(site, n - 1, hash, k);
    }
  }

  lemma {:induction false} WithdrawalsAreInOrder(site: Site, n: nat, hash: Bytes -> Id)
    requires n <= MOST
    ensures InOrder(Withdrawals(site, n, hash))
  {
    hide Withdrawals, RecordCodec.Canonical;
    var own := Withdrawals(site, n, hash);
    forall k | 0 <= k < n ensures own[k].hlc == Hlc(k, 0) {
      WithdrawalAt(site, n, hash, k);
    }
  }

  lemma {:induction false} WithdrawalSize(site: Site, k: i64, hash: Bytes -> Id)
    ensures |Framed(Withdrawal(site, k, hash))| == FRAME_BYTES
    ensures RecordCodec.Canonical(Withdrawal(site, k, hash)) == RecordCodec.Canonical(Unnamed(site, k))
    ensures |RecordCodec.Canonical(Withdrawal(site, k, hash))| <= U64_MAX
  {
    hide BigEndian, RecordCodec.RecordDomain;
    var r := Unnamed(site, k);
    var body := RecordCodec.PutBody(r.body, r.signature);
    assert |body| == 96;
    var stamp := RecordCodec.PutStamp(r.hlc, r.body.Tag(), body);
    assert |stamp| == 109;
    var ids := PutId(r.channel, PutId(r.author, PutId(r.device, stamp)));
    assert |ids| == 205;
    assert RecordCodec.Canonical(r) == PutBytes(RecordCodec.RecordDomain(), ids);
    assert |RecordCodec.Canonical(r)| == 236;
  }

  lemma {:induction false} WithdrawalsAreWellFormed(site: Site, n: nat, isKey: Id -> bool, hash: Bytes -> Id)
    requires n <= MOST && isKey(site.author)
    ensures AllWellFormed(Withdrawals(site, n, hash), isKey, hash)
  {
    hide Withdrawals, RecordCodec.Canonical;
    var own := Withdrawals(site, n, hash);
    forall k | 0 <= k < n
      ensures RecordCodec.WellFormed(own[k], isKey, hash) && |RecordCodec.Canonical(own[k])| <= U64_MAX
    {
      WithdrawalAt(site, n, hash, k);
      WithdrawalSize(site, k, hash);
    }
  }

  lemma {:induction false} OneMoreSize(site: Site, front: seq<Record>, r: Record)
    ensures |SegmentBytes(Uncut(site, front + [r]))| == |SegmentBytes(Uncut(site, front))| + |Framed(r)|
  {
    hide SegmentBytes, Framed;
    AppendExtends(Uncut(site, front), r);
  }

  lemma {:induction false} WithdrawalsStep(site: Site, n: nat, hash: Bytes -> Id)
    requires n <= MOST
    ensures Withdrawals(site, n, hash)
            == if n == 0 then [] else Withdrawals(site, n - 1, hash) + [Withdrawal(site, n - 1, hash)]
  {
    hide Withdrawal;
  }

  lemma {:induction false} WithdrawalsSize(site: Site, n: nat, hash: Bytes -> Id)
    requires n <= MOST
    ensures |SegmentBytes(Uncut(site, Withdrawals(site, n, hash)))| == HEADER_BYTES + n * FRAME_BYTES
  {
    hide SegmentBytes, Framed, Withdrawal, Uncut, Withdrawals;
    WithdrawalsStep(site, n, hash);
    if n == 0 {
      EmptySize(site);
    } else {
      var front, r := Withdrawals(site, n - 1, hash), Withdrawal(site, n - 1, hash);
      WithdrawalsSize(site, n - 1, hash);
      WithdrawalSize(site, n - 1, hash);
      OneMoreSize(site, front, r);
    }
  }

  lemma {:induction false} EmptySize(site: Site)
    ensures |SegmentBytes(Uncut(site, []))| == HEADER_BYTES
  {
    hide BigEndian, SegmentDomain;
    assert Frames([]) == [];
    assert |PutOptionalId(None, [])| == 1;
  }

  lemma {:induction false} WithdrawalsAreShort(site: Site, n: nat, hash: Bytes -> Id)
    requires 0 < n <= MOST
    ensures var own := Withdrawals(site, n, hash);
            && (forall r :: r in own ==> r.channel == site.channel && r.author == site.author)
            && own[n - 1].hlc.wall - own[0].hlc.wall < SEAL_SPAN
            && |SegmentBytes(Uncut(site, own))| <= SEAL_TARGET_BYTES
  {
    hide SegmentBytes, Withdrawals, RecordCodec.Canonical;
    var own := Withdrawals(site, n, hash);
    WithdrawalsSize(site, n, hash);
    WithdrawalAt(site, n, hash, 0);
    WithdrawalAt(site, n, hash, n - 1);
    forall r | r in own ensures r.channel == site.channel && r.author == site.author {
      var k :| 0 <= k < n && own[k] == r;
      WithdrawalAt(site, n, hash, k);
    }
  }

  /// At the shipped thresholds a run of withdrawals, a millisecond apart and as
  /// many as seventeen thousand, is published as one segment; and that segment is
  /// read exactly when there are no more of them than a reader takes.
  lemma {:induction false} ARunOfWithdrawals(site: Site, n: nat, isKey: Id -> bool, hash: Bytes -> Id)
    requires site.sealBytes == SEAL_TARGET_BYTES && site.segmentMax == SEGMENT_MAX_BYTES
    requires 0 < n <= MOST && isKey(site.author)
    ensures var p := Walk(site, Withdrawals(site, n, hash));
            && p.Some? && |Links(p.value)| == 1
            && Links(p.value)[0].segment.records == Withdrawals(site, n, hash)
            && Links(p.value)[0].pointer.Some?
            && TakeSegment(Links(p.value)[0].pointer.value.content, isKey, hash)
               == if n <= MAX_RECORDS_PER_SEGMENT then Ok(Links(p.value)[0].segment) else Err(TooManyRecords)
  {
    hide SegmentBytes, Walk, InOrder, TakeSegment, AllWellFormed, Withdrawals, Links;
    var own := Withdrawals(site, n, hash);
    WithdrawalsAreInOrder(site, n, hash);
    WithdrawalsAreWellFormed(site, n, isKey, hash);
    WithdrawalsAreShort(site, n, hash);
    OnlySizeAndAgeCut(site, own, isKey, hash);
    LinksReadBack(site, own, 0, isKey, hash);
  }

  /// One more than a reader takes, so none takes any of them.
  lemma {:induction false} OneTooMany(site: Site, isKey: Id -> bool, hash: Bytes -> Id)
    requires site.sealBytes == SEAL_TARGET_BYTES && site.segmentMax == SEGMENT_MAX_BYTES && isKey(site.author)
    ensures var p := Walk(site, Withdrawals(site, 4097, hash));
            && p.Some? && |Links(p.value)| == 1 && Links(p.value)[0].pointer.Some?
            && TakeSegment(Links(p.value)[0].pointer.value.content, isKey, hash) == Err(TooManyRecords)
  {
    hide Walk, TakeSegment, Links, Withdrawals;
    ARunOfWithdrawals(site, 4097, isKey, hash);
  }

  /// Up to the bound they are a history that reaches every reader.
  lemma {:induction false} WithdrawalsReachReaders(site: Site, n: nat, isKey: Id -> bool, hash: Bytes -> Id)
    requires site.sealBytes == SEAL_TARGET_BYTES && site.segmentMax == SEGMENT_MAX_BYTES
    requires 0 < n <= MOST && isKey(site.author)
    ensures Delivery.Publishable(Delivery.Member(site, Withdrawals(site, n, hash)), isKey, hash)
            <==> n <= MAX_RECORDS_PER_SEGMENT
  {
    hide SegmentBytes, Walk, InOrder, TakeSegment, AllWellFormed, Withdrawals, Links;
    ARunOfWithdrawals(site, n, isKey, hash);
    WithdrawalsAreInOrder(site, n, hash);
    WithdrawalsAreWellFormed(site, n, isKey, hash);
    WithdrawalsAreShort(site, n, hash);
    var p := Walk(site, Withdrawals(site, n, hash)).value;
    assert |Links(p)[0].segment.records| == n;
  }
}
