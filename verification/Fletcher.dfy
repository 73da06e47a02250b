/** The frame checksum: `tool::fletcher16` in src/xchange.hpp. */
module Fletcher {
  import opened Arithmetic
  import opened Bytes

  newtype uint32 = x: int | 0 <= x < 0x1_0000_0000

  /** Bytes added up between two reductions. */
  const BLOCK := 5802

  /** The sum of the bytes. */
  function Sum0(d: seq<byte>): nat {
    if d == [] then 0 else Sum0(d[..|d| - 1]) + d[|d| - 1]
  }

  /** The sum of all the prefix sums. */
  function Sum1(d: seq<byte>): nat {
    if d == [] then 0 else Sum1(d[..|d| - 1]) + Sum0(d)
  }

  function Checksum(d: seq<byte>): u16 {
    Sum1(d) % 255 * 256 + Sum0(d) % 255
  }

  /** The two running sums as the source keeps them. */
  datatype Acc = Acc(c0: nat, c1: nat) {
    function Reduced(): Acc { Acc(c0 % 255, c1 % 255) }
    function Add(b: byte): Acc { Acc(c0 + b, c1 + c0 + b) }
  }

  /** The sums after all of `d`, reduced only where a block of `n` bytes ends and another begins. */
  function Deferred(d: seq<byte>, n: nat): Acc
    requires n > 0
    decreases |d|, 1
  {
    if d == [] then Acc(0, 0) else BeforeLast(d, n).Add(d[|d| - 1])
  }

  function BeforeLast(d: seq<byte>, n: nat): Acc
    requires n > 0 && d != []
    decreases |d|, 0
  {
    var k := |d| - 1;
    if k % n == 0 then Deferred(d[..k], n).Reduced() else Deferred(d[..k], n)
  }

  /** The textbook definition: reduce after every byte. */
  function PerByte(d: seq<byte>): Acc {
    if d == [] then Acc(0, 0) else PerByte(d[..|d| - 1]).Add(d[|d| - 1]).Reduced()
  }

  /** Position-weighted sum of d[i..], each byte counted once for every prefix that holds it. */
  function Weighted(d: seq<byte>, i: nat): nat
    requires i <= |d|
    decreases |d| - i
  {
    if i == |d| then 0 else (|d| - i) * d[i] + Weighted(d, i + 1)
  }

  // ---------- remainders ----------

  ghost predicate Congruent(a: int, b: int) {
    exists m: int :: a == b + 255 * m
  }

  lemma SameRemainder(a: int, b: int)
    ensures a % 255 == b % 255 <==> Congruent(a, b)
  {
    if a % 255 == b % 255 {
      assert a == b + 255 * (a / 255 - b / 255);
    }
  }

  lemma AddCongruent(a: int, b: int, c: int, d: int)
    requires a % 255 == b % 255 && c % 255 == d % 255
    ensures (a + c) % 255 == (b + d) % 255
  {
  }

  lemma ReducedIsCongruent(a: Acc)
    ensures a.Reduced().c0 % 255 == a.c0 % 255 && a.Reduced().c1 % 255 == a.c1 % 255
  {
  }

  lemma AddKeepsCongruence(a: Acc, b: Acc, x: byte)
    requires a.c0 % 255 == b.c0 % 255 && a.c1 % 255 == b.c1 % 255
    ensures a.Add(x).c0 % 255 == b.Add(x).c0 % 255 && a.Add(x).c1 % 255 == b.Add(x).c1 % 255
  {
    AddCongruent(a.c0, b.c0, x, x);
    AddCongruent(a.c1, b.c1, a.c0 + x, b.c0 + x);
  }

  // ---------- deferred reduction is sound ----------

  lemma {:induction false} DeferredIsCongruent(d: seq<byte>, n: nat)
    requires n > 0
    ensures Deferred(d, n).c0 % 255 == Sum0(d) % 255
    ensures Deferred(d, n).c1 % 255 == Sum1(d) % 255
  {
    if d != [] {
      var k := |d| - 1;
      DeferredIsCongruent(d[..k], n);
      var sums := Acc(Sum0(d[..k]), Sum1(d[..k]));
      ReducedIsCongruent(Deferred(d[..k], n));
      AddKeepsCongruence(BeforeLast(d, n), sums, d[k]);
      assert sums.Add(d[k]) == Acc(Sum0(d), Sum1(d));
    }
  }

  lemma {:induction false} PerByteIsReducedSums(d: seq<byte>)
    ensures PerByte(d) == Acc(Sum0(d) % 255, Sum1(d) % 255)
  {
    if d != [] {
      var k := |d| - 1;
      PerByteIsReducedSums(d[..k]);
      var sums := Acc(Sum0(d[..k]), Sum1(d[..k]));
      assert PerByte(d) == sums.Reduced().Add(d[k]).Reduced();
      ReducedAdd(sums, d[k]);
      assert sums.Add(d[k]) == Acc(Sum0(d), Sum1(d));
    }
  }

  lemma ReducedAdd(a: Acc, x: byte)
    ensures a.Reduced().Add(x).Reduced() == a.Add(x).Reduced()
  {
    ReducedIsCongruent(a);
    AddKeepsCongruence(a.Reduced(), a, x);
  }

  lemma {:induction false} WeightedSplit(d: seq<byte>, i: nat)
    requires d != [] && i < |d|
    ensures Weighted(d, i) == Weighted(d[..|d| - 1], i) + Sum0(d) - Sum0(d[..i])
    decreases |d| - i
  {
    var p := d[..|d| - 1];
    assert d[..i + 1][..i] == d[..i];
    if i + 1 < |d| {
      WeightedSplit(d, i + 1);
      assert (|d| - i) * d[i] == (|p| - i) * p[i] + d[i];
    } else {
      assert d[..i + 1] == d && p == d[..i];
    }
  }

  lemma {:induction false} ClosedForm(d: seq<byte>)
    ensures Sum1(d) == Weighted(d, 0)
    ensures PerByte(d) == Acc(Sum0(d) % 255, Weighted(d, 0) % 255)
  {
    PerByteIsReducedSums(d);
    if d != [] {
      ClosedForm(d[..|d| - 1]);
      WeightedSplit(d, 0);
      assert d[..0] == [];
    }
  }

  /** The high byte of the checksum is the second sum of the textbook definition, the low byte the first. */
  lemma ChecksumBytes(d: seq<byte>)
    ensures Checksum(d) / 256 == PerByte(d).c1 == Weighted(d, 0) % 255
    ensures Checksum(d) % 256 == PerByte(d).c0 == Sum0(d) % 255
  {
    hide Sum0, Sum1, Weighted, PerByte;
    ClosedForm(d);
  }

  // ---------- the block length is the largest one without overflow ----------

  /** Bytes added since the last reduction. */
  function Phase(d: seq<byte>, n: nat): (r: nat)
    requires n > 0
    ensures r <= n
  {
    if d == [] then 0 else (|d| - 1) % n + 1
  }

  lemma {:induction false} DeferredBound(d: seq<byte>, n: nat)
    requires n > 0
    ensures var r := Phase(d, n);
      && Deferred(d, n).c0 <= 254 + 255 * r
      && 2 * Deferred(d, n).c1 <= 508 + 508 * r + 255 * (r * (r + 1))
  {
    if d != [] {
      var k, r := |d| - 1, Phase(d, n);
      DeferredBound(d[..k], n);
      if k % n != 0 {
        PhaseStep(k, n);
        assert Phase(d[..k], n) == r - 1;
      }
      GrowthBound(BeforeLast(d, n), d[k], r);
    }
  }

  lemma GrowthBound(a: Acc, b: byte, r: nat)
    requires r > 0 && a.c0 <= 254 + 255 * (r - 1)
    requires 2 * a.c1 <= 508 + 508 * (r - 1) + 255 * ((r - 1) * r)
    ensures a.Add(b).c0 <= 254 + 255 * r && 2 * a.Add(b).c1 <= 508 + 508 * r + 255 * (r * (r + 1))
  {
  }

  lemma PhaseStep(k: nat, n: nat)
    requires n > 0 && k % n != 0
    ensures k > 0 && (k - 1) % n + 1 == k % n
  {
    var q, r := k / n, k % n;
    assert k - 1 == q * n + (r - 1);
    DivModUnique(k - 1, q, r - 1, n);
  }

  lemma FitsUint32(d: seq<byte>, n: nat)
    requires 0 < n <= BLOCK
    ensures Deferred(d, n).c0 < ROLLOVER && Deferred(d, n).c1 < ROLLOVER
  {
    DeferredBound(d, n);
    var r := Phase(d, n);
    MulMono(r, BLOCK, r + 1);
    MulMono(r + 1, BLOCK + 1, BLOCK);
  }

  function Repeat(b: byte, n: nat): (s: seq<byte>) { seq(n, i => b) }

  /** The longest block that keeps both sums at their largest residues before a run of 0xFF. */
  function Prelude(n: nat): seq<byte>
    requires n > 0
  {
    Repeat(0, n - 1) + [254]
  }

  lemma {:induction false} ZerosStayZero(k: nat, n: nat)
    requires n > 0
    ensures Deferred(Repeat(0, k), n) == Acc(0, 0)
  {
    if k > 0 {
      assert Repeat(0, k)[..k - 1] == Repeat(0, k - 1);
      ZerosStayZero(k - 1, n);
    }
  }

  lemma TriangleStep(j: nat)
    requires j > 0
    ensures j * (j + 1) == (j - 1) * (j - 1 + 1) + 2 * j
  {
  }

  lemma {:induction false} RunOfOnes(n: nat, j: nat)
    requires 0 < j <= n
    ensures var a := Deferred(Prelude(n) + Repeat(255, j), n);
      a.c0 == 254 + 255 * j && 2 * a.c1 == 508 + 508 * j + 255 * (j * (j + 1))
  {
    var d := Prelude(n) + Repeat(255, j);
    var k := |d| - 1;
    TriangleStep(j);
    if j == 1 {
      assert d[..k] == Prelude(n) && Prelude(n)[..n - 1] == Repeat(0, n - 1);
      ZerosStayZero(n - 1, n);
      assert Deferred(Prelude(n), n) == Acc(254, 254);
      DivModUnique(k, 1, 0, n);
    } else {
      assert d[..k] == Prelude(n) + Repeat(255, j - 1);
      RunOfOnes(n, j - 1);
      DivModUnique(k, 1, j - 1, n);
    }
  }

  lemma OverflowsAbove(n: nat)
    requires n > BLOCK
    ensures Deferred(Prelude(n) + Repeat(255, BLOCK + 1), n).c1 >= ROLLOVER
  {
    RunOfOnes(n, BLOCK + 1);
  }

  ghost predicate NeverOverflows(n: nat)
    requires n > 0
  {
    forall d :: Deferred(d, n).c0 < ROLLOVER && Deferred(d, n).c1 < ROLLOVER
  }

  /** 5802 is exactly the largest block length for which 32 bits suffice on every input. */
  lemma BlockLengthIsTight(n: nat)
    requires n > 0
    ensures NeverOverflows(n) <==> n <= 5802
  {
    if n <= BLOCK {
      forall d ensures Deferred(d, n).c0 < ROLLOVER && Deferred(d, n).c1 < ROLLOVER {
        FitsUint32(d, n);
      }
    } else {
      OverflowsAbove(n);
    }
  }

  // ---------- the implementation ----------

  lemma DeferredStep(data: seq<byte>, start: nat, pos: nat)
    requires start % BLOCK == 0 && start <= pos < start + BLOCK && pos < |data|
    ensures var before := Deferred(data[..pos], BLOCK);
      var after := (if pos == start then before.Reduced() else before).Add(data[pos]);
      after == Deferred(data[..pos + 1], BLOCK) && after.c0 < ROLLOVER && after.c1 < ROLLOVER
  {
    assert data[..pos + 1][..pos] == data[..pos];
    assert pos % BLOCK == pos - start;
    FitsUint32(data[..pos + 1], BLOCK);
  }

  method Fletcher16(data: seq<byte>) returns (chksum: u16)
    ensures chksum == Checksum(data)
    ensures chksum / 256 == PerByte(data).c1 && chksum % 256 == PerByte(data).c0
  {
    hide Sum0, Sum1;
    var c0: uint32, c1: uint32 := 0, 0;
    assert Deferred(data[..0], BLOCK) == Acc(0, 0);
    hide Deferred;
    var len, pos := |data|, 0;
    while len > 0
      invariant 0 <= len <= |data| && pos == |data| - len
      invariant len > 0 ==> pos % BLOCK == 0
      invariant Acc(c0 as int, c1 as int) == Deferred(data[..pos], BLOCK).Reduced()
    {
      var blocklen := len;
      if blocklen > BLOCK {
        blocklen := BLOCK;
      }
      len := len - blocklen;
      ghost var start, size := pos, blocklen;
      while blocklen > 0
        invariant 0 <= blocklen <= size <= BLOCK && start + size + len == |data|
        invariant start % BLOCK == 0 && pos == start + size - blocklen
        invariant len > 0 ==> size == BLOCK
        invariant Acc(c0 as int, c1 as int) ==
                  (if pos == start then Deferred(data[..pos], BLOCK).Reduced() else Deferred(data[..pos], BLOCK))
      {
        DeferredStep(data, start, pos);
        c0 := c0 + data[pos] as uint32;
        c1 := c1 + c0;
        pos := pos + 1;
        blocklen := blocklen - 1;
      }
      c0 := c0 % 255;
      c1 := c1 % 255;
    }
    assert data[..pos] == data;
    DeferredIsCongruent(data, BLOCK);
    chksum := (c1 as int) * 256 + c0 as int;
    ChecksumBytes(data);
  }

  // ---------- what the checksum notices ----------

  lemma {:induction false} SumsAfterChange(d: seq<byte>, i: nat, x: byte)
    requires i < |d|
    ensures Sum0(d[i := x]) == Sum0(d) + x - d[i]
    ensures Sum1(d[i := x]) == Sum1(d) + (|d| - i) * (x - d[i])
  {
    var e, n := d[i := x], |d| - 1;
    OneMoreTimes(n - i, x - d[i]);
    if i == n {
      assert e[..n] == d[..n];
    } else {
      assert e[..n] == d[..n][i := x];
      SumsAfterChange(d[..n], i, x);
    }
  }

  lemma OneMoreTimes(k: nat, w: int)
    ensures (k + 1) * w == k * w + w
  {
  }

  lemma ChecksumEqual(d: seq<byte>, e: seq<byte>)
    ensures Checksum(d) == Checksum(e)
            <==> Congruent(Sum0(d), Sum0(e)) && Congruent(Sum1(d), Sum1(e))
  {
    SameRemainder(Sum0(d), Sum0(e));
    SameRemainder(Sum1(d), Sum1(e));
  }

  /** Changing one byte goes unnoticed exactly when it turns 0x00 into 0xFF or back. */
  lemma SingleByteChange(d: seq<byte>, i: nat, x: byte)
    requires i < |d| && x != d[i]
    ensures Checksum(d[i := x]) == Checksum(d) <==> (x == 0 && d[i] == 255) || (x == 255 && d[i] == 0)
  {
    var e := d[i := x];
    SumsAfterChange(d, i, x);
    ChecksumEqual(e, d);
    SmallShift(Sum0(e), Sum0(d), x - d[i]);
    WeightedShift(Sum1(e), Sum1(d), |d| - i, x - d[i]);
  }

  lemma SmallShift(s: int, t: int, delta: int)
    requires s == t + delta && -255 <= delta <= 255 && delta != 0
    ensures Congruent(s, t) <==> delta == 255 || delta == -255
  {
    if delta == 255 {
      assert s == t + 255 * 1;
    } else if delta == -255 {
      assert s == t + 255 * (-1);
    }
  }

  lemma WeightedShift(s: int, t: int, w: int, delta: int)
    requires s == t + w * delta
    ensures delta == 255 || delta == -255 ==> Congruent(s, t)
  {
    if delta == 255 {
      assert s == t + 255 * w;
    } else if delta == -255 {
      assert s == t + 255 * (-w);
    }
  }

  /** Exchanging two bytes goes unnoticed exactly when 255 divides their difference times their distance. */
  lemma SwapOfTwoBytes(d: seq<byte>, i: nat, j: nat)
    requires i < j < |d|
    ensures Checksum(d[i := d[j]][j := d[i]]) == Checksum(d) <==> ((d[i] - d[j]) * (j - i)) % 255 == 0
  {
    var m := d[i := d[j]];
    var e := m[j := d[i]];
    SumsAfterChange(d, i, d[j]);
    SumsAfterChange(m, j, d[i]);
    var gap := (d[i] - d[j]) * (j - i);
    SwapWeights(d[i], d[j], |d| - i, |d| - j);
    assert Sum0(e) == Sum0(d) + 255 * 0 && Sum1(e) == Sum1(d) - gap;
    ChecksumEqual(e, d);
    DividesIsCongruent(Sum1(e), Sum1(d), gap);
  }

  lemma SwapWeights(a: int, b: int, u: int, v: int)
    ensures u * (b - a) + v * (a - b) == -((a - b) * (u - v))
  {
  }

  lemma DividesIsCongruent(s: int, t: int, gap: int)
    requires s == t - gap
    ensures Congruent(s, t) <==> gap % 255 == 0
  {
    if gap % 255 == 0 {
      assert s == t + 255 * (-(gap / 255));
    }
    if Congruent(s, t) {
      var m :| s == t + 255 * m;
      assert gap == 255 * (-m);
    }
  }
}
