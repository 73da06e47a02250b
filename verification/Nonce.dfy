/** The IV counter that sender and receiver advance once per encrypted frame:
    `incrementIV` of the three cipher handlers. */
module Nonce {
  import opened Arithmetic
  import opened Bytes

  function Increment(iv: seq<byte>): (r: seq<byte>)
    ensures |r| == |iv|
  {
    if iv == [] then []
    else if iv[0] == 255 then [0] + Increment(iv[1..])
    else [iv[0] + 1] + iv[1..]
  }

  function Advance(iv: seq<byte>, n: nat): (r: seq<byte>)
    ensures |r| == |iv|
  {
    if n == 0 then iv else Increment(Advance(iv, n - 1))
  }

  /** A run of 0xFF bytes wraps to zeros and carries into what follows it. */
  lemma {:induction false} CarryRun(iv: seq<byte>, i: nat, r: seq<byte>)
    requires i <= |iv| == |r|
    requires forall k :: 0 <= k < i ==> iv[k] == 255 && r[k] == 0
    requires r[i..] == Increment(iv[i..])
    ensures r == Increment(iv)
  {
    if i > 0 {
      assert iv[1..][i - 1..] == iv[i..] && r[1..][i - 1..] == r[i..];
      CarryRun(iv[1..], i - 1, r[1..]);
      assert r == [0] + r[1..];
    } else {
      assert iv[0..] == iv && r[0..] == r;
    }
  }

  method IncrementIV(numArr: array<byte>)
    modifies numArr
    ensures numArr[..] == Increment(old(numArr[..]))
  {
    var i := 0;
    ghost var iv := numArr[..];
    while i < numArr.Length
      invariant 0 <= i <= numArr.Length
      invariant forall k :: 0 <= k < i ==> iv[k] == 255 && numArr[k] == 0
      invariant forall k :: i <= k < numArr.Length ==> numArr[k] == iv[k]
    {
      numArr[i] := if numArr[i] == 255 then 0 else numArr[i] + 1;
      if numArr[i] != 0 {
        assert iv[i..] == [iv[i]] + iv[i + 1..];
        assert numArr[..][i..] == [iv[i] + 1] + iv[i + 1..];
        break;
      }
      i := i + 1;
    }
    CarryRun(iv, i, numArr[..]);
  }

  /** Each call adds one to the little-endian value, modulo 256 to the size. */
  lemma {:induction false} IncrementAddsOne(iv: seq<byte>)
    ensures FromLE(Increment(iv)) == (FromLE(iv) + 1) % Pow256(|iv|)
  {
    if iv != [] {
      var next, high := Increment(iv), FromLE(iv[1..]);
      var p := Pow256(|iv| - 1);
      assert Pow256(|iv|) == 256 * p;
      if iv[0] == 255 {
        IncrementAddsOne(iv[1..]);
        assert next[1..] == Increment(iv[1..]);
        if high + 1 < p {
          SmallModulo(high + 1, p);
          SmallModulo(256 * high + 256, 256 * p);
        } else {
          DivModUnique(p, 1, 0, p);
          DivModUnique(256 * p, 1, 0, 256 * p);
        }
      } else {
        assert next[1..] == iv[1..];
        SmallModulo(FromLE(iv) + 1, 256 * p);
      }
    }
  }

  lemma {:induction false} AdvanceAdds(iv: seq<byte>, n: nat)
    ensures FromLE(Advance(iv, n)) == (FromLE(iv) + n) % Pow256(|iv|)
  {
    var p := Pow256(|iv|);
    if n == 0 {
      SmallModulo(FromLE(iv), p);
    } else {
      AdvanceAdds(iv, n - 1);
      IncrementAddsOne(Advance(iv, n - 1));
      AddModulo(FromLE(iv) + n - 1, 1, p);
    }
  }

  /** Two frames share a nonce exactly when a whole number of counter cycles lies between them. */
  lemma NoncesRepeatOnlyAfterACycle(iv: seq<byte>, i: nat, j: nat)
    requires i <= j
    ensures Advance(iv, i) == Advance(iv, j) <==> (j - i) % Pow256(|iv|) == 0
  {
    var p, v := Pow256(|iv|), FromLE(iv);
    AdvanceAdds(iv, i);
    AdvanceAdds(iv, j);
    ToFromLE(Advance(iv, i));
    ToFromLE(Advance(iv, j));
    SameRemainderGap(v + i, v + j, p);
  }

  /** A session accepts fewer than 2^32 frames, so with the 12 and 24 byte IVs no two of them share a nonce. */
  lemma SessionNoncesDistinct(iv: seq<byte>, i: nat, j: nat)
    requires |iv| >= 4 && i < j < ROLLOVER
    ensures Advance(iv, i) != Advance(iv, j)
  {
    NoncesRepeatOnlyAfterACycle(iv, i, j);
    PowerGrows(4, |iv|);
    SmallModulo(j - i, Pow256(|iv|));
  }

  lemma {:induction false} PowerGrows(m: nat, n: nat)
    requires m <= n
    ensures Pow256(m) <= Pow256(n)
    decreases n
  {
    if m < n {
      PowerGrows(m, n - 1);
    }
  }
}
