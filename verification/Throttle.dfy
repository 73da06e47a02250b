/** Bandwidth control of `sendFile` in src/xcc_protocol_handler.hpp. */
module Throttle {
  import opened Arithmetic
  import opened Bytes
  import opened Frames

  const BUCKETS_PER_SEC := 5
  /** Length of a bucket in microseconds. */
  const BUCKET := 1000000 / BUCKETS_PER_SEC

  /** Conversion of an unsigned 64-bit value to `int`. */
  function ToInt32(x: nat): (y: int)
    ensures -0x8000_0000 <= y < 0x8000_0000 && (x - y) % ROLLOVER == 0
  {
    var m := x % ROLLOVER;
    if m < 0x8000_0000 then m else m - ROLLOVER
  }

  /** Division of an `int`, truncating toward zero. */
  function TruncDiv(a: int, b: nat): int
    requires b > 0
  {
    if a >= 0 then a / b else -((-a) / b)
  }

  /** The frames admitted per bucket, as the source computes them from bytes per second. */
  function FramesPerBucket(bandwidth: nat): (f: u32) {
    TruncDiv(ToInt32(bandwidth / BUCKETS_PER_SEC), FRAME) % ROLLOVER
  }

  /** What the conversion to `int` has dropped from a bucket's share of the bandwidth, in units of 2^32. */
  function Dropped(bandwidth: nat): int {
    var share := bandwidth / 5;
    (share - ToInt32(share)) / ROLLOVER
  }

  /** What a caller can check beforehand: the share does not turn into an `int` below -1459, or so much of it has been
      dropped that even the enormous F it turns into stays below it. */
  predicate Honoured(bandwidth: nat) {
    var y, m := ToInt32(bandwidth / 5), Dropped(bandwidth);
    y > -1460 || m > 1460 || (m == 1460 && (-y) % 1460 == 0)
  }

  /** F + 1 full frames exceed the share by at most one frame exactly under that condition. */
  lemma HonouredIff(bandwidth: nat)
    ensures (FramesPerBucket(bandwidth) + 1) * 1460 <= bandwidth / 5 + 1460 <==> Honoured(bandwidth)
  {
    var share := bandwidth / BUCKETS_PER_SEC;
    var y, m := ToInt32(share), Dropped(bandwidth);
    assert share == y + ROLLOVER * m;
    if y > -FRAME {
      SmallShare(share, y, m);
    } else {
      LargeShare(share, y, m);
    }
  }

  lemma SmallShare(share: nat, y: int, m: int)
    requires share == y + ROLLOVER * m && -FRAME < y < 0x8000_0000
    ensures 0 <= TruncDiv(y, FRAME) < ROLLOVER && (TruncDiv(y, FRAME) % ROLLOVER + 1) * FRAME <= share + FRAME
  {
    var q := TruncDiv(y, FRAME);
    assert 0 <= q < ROLLOVER;
    SmallModulo(q, ROLLOVER);
    assert y >= 0 ==> q * FRAME <= y <= share;
  }

  lemma LargeShare(share: nat, y: int, m: int)
    requires share == y + ROLLOVER * m && -0x8000_0000 <= y <= -FRAME
    ensures (TruncDiv(y, FRAME) % ROLLOVER + 1) * FRAME <= share + FRAME
            <==> m > FRAME || (m == FRAME && (-y) % FRAME == 0)
  {
    var q, r := (-y) / FRAME, (-y) % FRAME;
    assert -y == q * FRAME + r && 1 <= q < ROLLOVER;
    DivModUnique(ROLLOVER - q, 0, ROLLOVER - q, ROLLOVER);
    assert TruncDiv(y, FRAME) == -q && (-q) % ROLLOVER == ROLLOVER - q;
  }

  /** Below 5 * 2^31 bytes per second the condition holds, and F is what the quotient promises. */
  lemma UsualBandwidth(bandwidth: nat)
    requires bandwidth / 5 < 0x8000_0000
    ensures Honoured(bandwidth) && FramesPerBucket(bandwidth) == bandwidth / 5 / 1460
  {
  }

  /** The bandwidths that admit a frame at all: a share of a frame or more is left, on either side of zero, once it has
      been converted. */
  lemma AdmitsFramesIff(bandwidth: nat)
    ensures FramesPerBucket(bandwidth) != 0 <==> 1460 <= bandwidth / 5 % 0x1_0000_0000 <= 0x1_0000_0000 - 1460
  {
    var y := ToInt32(bandwidth / 5);
    var q := TruncDiv(y, FRAME);
    assert q == 0 <==> -1460 < y < 1460;
    assert -ROLLOVER < q < ROLLOVER;
  }

  /** A clock that never goes back; a sleep lasts at least as long as asked. */
  class Clock {
    var now: int
    /** How long the program has asked to sleep, in all. */
    ghost var asked: int

    method Pass()
      modifies this`now
      ensures now >= old(now)
    {
      var t: int := *;
      if t > now {
        now := t;
      }
    }

    method Sleep(micros: int)
      modifies this
      ensures now >= old(now) + micros && now >= old(now) && asked == old(asked) + micros
    {
      asked := asked + micros;
      if micros > 0 {
        now := now + micros;
      }
      Pass();
    }
  }

  /** Frame number i of a run that began at `begin` goes out in its own bucket or later. */
  ghost predicate Paced(sentAt: seq<int>, begin: int, f: nat) {
    forall i :: 0 <= i < |sentAt| ==> sentAt[i] >= begin + i / (f + 1) * BUCKET
  }

  lemma NothingPaced(begin: int, f: nat)
    ensures Paced([], begin, f)
  {
  }

  lemma PacedEarlier(sentAt: seq<int>, early: int, begin: int, f: nat)
    requires Paced(sentAt, begin, f) && early <= begin
    ensures Paced(sentAt, early, f)
  {
  }

  lemma PacedNext(sentAt: seq<int>, begin: int, f: nat, full: nat, r: nat, at: int)
    requires Paced(sentAt, begin, f) && |sentAt| == full * (f + 1) + r && r <= f
    requires at >= begin + full * BUCKET
    ensures Paced(sentAt + [at], begin, f)
  {
    DivModUnique(|sentAt|, full, r, f + 1);
  }

  class Throttle {
    const clock: Clock
    const framesPerBucket: u32
    var startTime: int
    var frameBudget: u32
    /** When sending of each data frame began. */
    ghost var sentAt: seq<int>
    ghost const begin: int
    /** The buckets that are full and done. */
    ghost var full: nat

    ghost predicate Valid()
      reads this, clock
    {
      && framesPerBucket > 0 && frameBudget <= framesPerBucket
      && startTime <= clock.now
      && Paced(sentAt, begin, framesPerBucket)
      // the current bucket holds what the budget has lost
      && |sentAt| == full * (framesPerBucket + 1) + (framesPerBucket - frameBudget)
      && startTime >= begin + full * BUCKET
    }

    constructor (clock: Clock, framesPerBucket: u32)
      requires framesPerBucket > 0
      ensures Valid() && sentAt == [] && begin == clock.now && this.framesPerBucket == framesPerBucket
      ensures this.clock == clock
    {
      this.clock, this.framesPerBucket, frameBudget := clock, framesPerBucket, framesPerBucket;
      startTime := clock.now;
      begin := clock.now;
      sentAt, full := [], 0;
    }

    /** A frame begun in the current bucket keeps the pace, whether or not it gets through. */
    lemma BegunInTime(at: int)
      requires Valid() && startTime <= at
      ensures Paced(sentAt + [at], begin, framesPerBucket)
    {
      hide Paced;
      PacedNext(sentAt, begin, framesPerBucket, full, framesPerBucket - frameBudget, at);
    }

    /** Accounts for a data frame whose sending began at time `at`; waits when the bucket is full. */
    method FrameSent(ghost at: int)
      requires Valid() && startTime <= at <= clock.now
      modifies this, clock
      ensures Valid() && sentAt == old(sentAt) + [at] && startTime >= old(startTime) && clock.now >= old(clock.now)
      // no waiting as long as there is budget; otherwise the rest of the 200 milliseconds, and a new bucket
      ensures if old(frameBudget) > 0
              then clock.now == old(clock.now) && startTime == old(startTime) && frameBudget == old(frameBudget) - 1
              else startTime == clock.now >= old(startTime) + 200000 && frameBudget == framesPerBucket
      ensures var spent := old(clock.now) - old(startTime);
        clock.asked - old(clock.asked) == if old(frameBudget) == 0 && spent < 200000 then 200000 - spent else 0
    {
      hide Paced;
      BegunInTime(at);
      assert (full + 1) * (framesPerBucket + 1) == full * (framesPerBucket + 1) + framesPerBucket + 1;
      sentAt := sentAt + [at];
      var empty := frameBudget == 0;
      frameBudget := if empty then ROLLOVER - 1 else frameBudget - 1;
      if empty {
        var stopTime := clock.now;
        var duration := stopTime - startTime;
        if duration < BUCKET {
          clock.Sleep(BUCKET - duration);
        }
        startTime := clock.now;
        frameBudget := framesPerBucket;
        full := full + 1;
      }
    }
  }

  /** By `t` microseconds after the beginning, at most (F + 1) * (t / 200000 + 1) frames have been begun. */
  ghost predicate RateLimited(sentAt: seq<int>, begin: int, f: nat) {
    forall t: nat :: |SentBy(sentAt, begin, t)| <= (f + 1) * (t / 200000 + 1)
  }

  /** The frames of the run whose sending began by `t` microseconds after its start. */
  ghost function SentBy(sentAt: seq<int>, begin: int, t: nat): set<nat> {
    set i: nat | i < |sentAt| && sentAt[i] <= begin + t
  }

  function Below(n: nat): (s: set<nat>)
    ensures |s| == n
    ensures forall i: nat :: i in s <==> i < n
  {
    if n == 0 then {} else Below(n - 1) + {n - 1}
  }

  lemma SubsetSize(a: set<nat>, b: set<nat>)
    requires a <= b
    ensures |a| <= |b|
  {
    assert b == a + (b - a);
  }

  lemma IndexBound(i: nat, f: nat, t: nat)
    requires i / (f + 1) * BUCKET <= t
    ensures i < (f + 1) * (t / BUCKET + 1)
  {
    var q, b := i / (f + 1), t / BUCKET;
    assert i == q * (f + 1) + i % (f + 1);
    assert q <= b;
    MulMono(q + 1, b + 1, f + 1);
  }

  /** Pacing every frame limits the rate of the run. */
  lemma RateBound(sentAt: seq<int>, begin: int, f: nat)
    requires Paced(sentAt, begin, f)
    ensures RateLimited(sentAt, begin, f)
  {
    hide Paced, SentBy;
    forall t: nat ensures |SentBy(sentAt, begin, t)| <= (f + 1) * (t / BUCKET + 1) {
      BoundBy(sentAt, begin, f, t);
    }
  }

  lemma BoundBy(sentAt: seq<int>, begin: int, f: nat, t: nat)
    requires Paced(sentAt, begin, f)
    ensures |SentBy(sentAt, begin, t)| <= (f + 1) * (t / BUCKET + 1)
  {
    var sent, n := SentBy(sentAt, begin, t), (f + 1) * (t / BUCKET + 1);
    forall i | i in sent ensures i < n {
      IndexBound(i, f, t);
    }
    hide Paced, SentBy;
    SubsetSize(sent, Below(n));
  }
}
