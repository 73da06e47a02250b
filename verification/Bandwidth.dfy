/** How many bytes the buckets of a throttled transfer carry: `sendFile` in src/xcc_protocol_handler.hpp. */
module Bandwidth {
  import opened Arithmetic
  import opened Bytes
  import opened Frames
  import opened Throttle
  import opened Upload

  /** The bytes of a run of frames on the connection. */
  function Load(link: Link, fs: seq<Frame>): nat {
    if fs == [] then 0 else (if link.Plain? then HEADER + |fs[0].data| else FRAME) + Load(link, fs[1..])
  }

  lemma {:induction false} LoadOfStream(link: Link, fs: seq<Frame>, order: u32, id: byte)
    requires AllWellFormed(link, fs)
    ensures |Stream(link, fs, order, id)| == Load(link, fs)
    decreases fs
  {
    hide Wire;
    if fs != [] {
      LoadOfStream(link.Next(), fs[1..], Succ(order), id);
      SameLoad(link, fs[1..]);
    }
  }

  lemma {:induction false} SameLoad(link: Link, fs: seq<Frame>)
    ensures Load(link.Next(), fs) == Load(link, fs)
    decreases fs
  {
    if fs != [] {
      SameLoad(link, fs[1..]);
    }
  }

  lemma {:induction false} LoadBound(link: Link, fs: seq<Frame>)
    requires AllWellFormed(link, fs)
    ensures Load(link, fs) <= |fs| * FRAME
  {
    if fs != [] {
      LoadBound(link, fs[1..]);
    }
  }

  lemma {:induction false} FullLoad(link: Link, fs: seq<Frame>)
    requires forall i :: 0 <= i < |fs| ==> |fs[i].data| == link.BlockSize()
    ensures Load(link, fs) == |fs| * FRAME
  {
    if fs != [] {
      FullLoad(link, fs[1..]);
    }
  }

  /** The data frames of bucket number `k`, which are those counted from k * (F + 1) on until the budget is spent. */
  function Bucket(data: seq<Frame>, f: nat, k: nat): seq<Frame> {
    data[Min(k * (f + 1), |data|)..Min((k + 1) * (f + 1), |data|)]
  }

  /** In every transfer with this bandwidth, however far it got, each bucket carries at most its share of the bandwidth
      and one frame. */
  ghost predicate WithinShare(link: Link, bandwidth: nat) {
    forall name, src, p, fs, k | Built(link, name, src, p, fs) ::
      Load(link, Bucket(DataFrames(p.stage, fs), FramesPerBucket(bandwidth), k)) <= bandwidth / 5 + 1460
  }

  lemma BucketBound(link: Link, data: seq<Frame>, f: nat, k: nat)
    requires AllWellFormed(link, data)
    ensures Load(link, Bucket(data, f, k)) <= (f + 1) * FRAME
  {
    var bucket := Bucket(data, f, k);
    assert (k + 1) * (f + 1) == k * (f + 1) + (f + 1);
    LoadBound(link, bucket);
    MulMono(|bucket|, f + 1, FRAME);
  }

  lemma FirstBucket(data: seq<Frame>, f: nat)
    requires |data| >= f + 1
    ensures Bucket(data, f, 0) == data[..f + 1]
  {
  }

  /** A source of F + 1 blocks fills its first bucket completely. */
  lemma FullBucket(link: Link, f: nat) returns (src: seq<byte>, fs: seq<Frame>)
    ensures Built(link, [], src, Progress(Finished, []), fs)
    ensures Load(link, Bucket(DataFrames(Finished, fs), f, 0)) == (f + 1) * FRAME
  {
    hide WellFormed, Payloads;
    var size := link.BlockSize();
    src := seq<byte>((f + 1) * size, _ => 0);
    NothingBuilt(link, [], src);
    fs := Completion(link, [], src, Progress(Naming, src), []);
    FrameCount(link, [], src, fs);
    DivModUnique(|src|, f + 1, 0, size);
    var data := DataFrames(Finished, fs);
    assert data == fs[1..|fs| - 1] && |data| == f + 2;
    FirstBucket(data, f);
    var bucket := data[..f + 1];
    forall i | 0 <= i < |bucket| ensures |bucket[i].data| == size {
      assert bucket[i] == fs[i + 1];
    }
    FullLoad(link, bucket);
  }

  lemma DataWellFormed(link: Link, name: seq<byte>, src: seq<byte>, p: Progress, fs: seq<Frame>)
    requires Built(link, name, src, p, fs)
    ensures AllWellFormed(link, DataFrames(p.stage, fs))
  {
  }

  /** The buckets keep within their share in every transfer if and only if the bandwidth is one that is honoured. */
  lemma BucketBytesIff(link: Link, bandwidth: nat)
    ensures WithinShare(link, bandwidth) <==> Honoured(bandwidth)
  {
    hide Built, FramesPerBucket, Honoured, DataFrames, Bucket;
    var f := FramesPerBucket(bandwidth);
    HonouredIff(bandwidth);
    forall name, src, p, fs, k | Built(link, name, src, p, fs)
      ensures Load(link, Bucket(DataFrames(p.stage, fs), f, k)) <= (f + 1) * FRAME
    {
      DataWellFormed(link, name, src, p, fs);
      BucketBound(link, DataFrames(p.stage, fs), f, k);
    }
    var src, fs := FullBucket(link, f);
    assert WithinShare(link, bandwidth) ==>
        Load(link, Bucket(DataFrames(Progress(Finished, []).stage, fs), f, 0)) <= bandwidth / 5 + 1460;
  }

  /** Below 5 * 2^31 bytes per second they always do. */
  lemma BucketBytes(link: Link, bandwidth: nat)
    requires bandwidth < 5 * 0x8000_0000
    ensures WithinShare(link, bandwidth) && FramesPerBucket(bandwidth) == bandwidth / 5 / 1460
  {
    hide WithinShare, Honoured, FramesPerBucket;
    UsualBandwidth(bandwidth);
    BucketBytesIff(link, bandwidth);
  }

  /** With 5 * (2^32 - 1460) bytes per second, a bucket can carry 1460 * 2^32 bytes, instead of at most 2^32. */
  lemma BandwidthNotHonoured(link: Link)
    ensures var bandwidth := 5 * (0x1_0000_0000 - 1460);
      && FramesPerBucket(bandwidth) == 0xFFFF_FFFF
      && !Honoured(bandwidth) && !WithinShare(link, bandwidth)
  {
    hide WithinShare;
    BucketBytesIff(link, 5 * (ROLLOVER - FRAME));
  }

  /** The frames that F + 1 per bucket allow by `t` microseconds, and the bytes that the bandwidth allows. */
  function FramesBy(f: nat, t: nat): nat { (f + 1) * (t / 200000 + 1) }

  function BytesBy(bandwidth: nat, t: nat): nat { (bandwidth / 5 + 1460) * (t / 200000 + 1) }

  lemma FramesToBytes(bandwidth: nat, t: nat)
    requires Honoured(bandwidth)
    ensures FramesBy(FramesPerBucket(bandwidth), t) * FRAME <= BytesBy(bandwidth, t)
  {
    hide Honoured, FramesPerBucket;
    var f, buckets := FramesPerBucket(bandwidth), t / BUCKET + 1;
    HonouredIff(bandwidth);
    MulMono((f + 1) * FRAME, bandwidth / 5 + 1460, buckets);
    assert (f + 1) * buckets * FRAME == (f + 1) * FRAME * buckets;
  }

  /** Of a paced run, the frames begun by `t` microseconds are among the first of its frames, which together make up at
      most (share + 1460) * (t / 200000 + 1) bytes. */
  lemma ByteRate(link: Link, bandwidth: nat, data: seq<Frame>, sentAt: seq<int>, begin: int, t: nat)
    requires AllWellFormed(link, data) && |sentAt| == |data| && Honoured(bandwidth)
    requires Paced(sentAt, begin, FramesPerBucket(bandwidth))
    ensures var n := Min(FramesBy(FramesPerBucket(bandwidth), t), |data|);
      && (forall i :: 0 <= i < |data| && sentAt[i] <= begin + t ==> i < n)
      && Load(link, data[..n]) <= BytesBy(bandwidth, t)
  {
    hide FramesPerBucket, Honoured, WellFormed, BytesBy;
    var f := FramesPerBucket(bandwidth);
    var m := FramesBy(f, t);
    forall i | 0 <= i < |data| && sentAt[i] <= begin + t ensures i < m {
      IndexBound(i, f, t);
    }
    hide FramesBy;
    var n := Min(m, |data|);
    LoadBound(link, data[..n]);
    FramesToBytes(bandwidth, t);
    MulMono(n, m, FRAME);
  }

  /** In the first `s` seconds that is the bandwidth, and at most a frame more per bucket than that. */
  lemma BytesOfSeconds(bandwidth: nat, s: nat)
    ensures BytesBy(bandwidth, 1000000 * s) <= bandwidth * s + bandwidth / 5 + 1460 * (5 * s + 1)
  {
    var share := bandwidth / 5;
    assert 1000000 * s / 200000 == 5 * s;
    assert (share + 1460) * (5 * s + 1) == 5 * share * s + share + 1460 * (5 * s + 1);
    MulMono(5 * share, bandwidth, s);
  }
}
