/** Bytes, fixed-width integers and their little-endian encodings. */
module Bytes {
  import opened Arithmetic

  type byte = x: int | 0 <= x < 256
  type u16 = x: int | 0 <= x < 0x1_0000
  type u32 = x: int | 0 <= x < 0x1_0000_0000

  const ROLLOVER := 0x1_0000_0000

  /** The increment of a `uint32_t`. */
  function Succ(n: u32): u32 { (n + 1) % ROLLOVER }

  function Min(a: int, b: int): int { if a < b then a else b }

  function Pow256(n: nat): (p: nat)
    ensures p >= 1
  {
    if n == 0 then 1 else 256 * Pow256(n - 1)
  }

  /** The low `n` bytes of `v`, least significant byte first. */
  function ToLE(v: nat, n: nat): (s: seq<byte>)
    ensures |s| == n
  {
    if n == 0 then [] else [v % 256] + ToLE(v / 256, n - 1)
  }

  function FromLE(s: seq<byte>): (v: nat)
    ensures v < Pow256(|s|)
  {
    if s == [] then 0 else s[0] + 256 * FromLE(s[1..])
  }

  lemma {:induction false} FromToLE(v: nat, n: nat)
    requires v < Pow256(n)
    ensures FromLE(ToLE(v, n)) == v
  {
    if n > 0 {
      FromToLE(v / 256, n - 1);
      assert ToLE(v, n)[1..] == ToLE(v / 256, n - 1);
    }
  }

  lemma {:induction false} ToFromLE(s: seq<byte>)
    ensures ToLE(FromLE(s), |s|) == s
  {
    if s != [] {
      ToFromLE(s[1..]);
      assert (s[0] + 256 * FromLE(s[1..])) / 256 == FromLE(s[1..]);
    }
  }

  /** Least significant byte first. */
  lemma ToLEBytes(v: nat)
    ensures ToLE(v, 2) == [v % 256, v / 0x100 % 256]
    ensures ToLE(v, 4) == [v % 256, v / 0x100 % 256, v / 0x1_0000 % 256, v / 0x100_0000 % 256]
  {
    assert v / 256 / 256 == v / 0x1_0000 && v / 256 / 256 / 256 == v / 0x100_0000;
    assert ToLE(v / 256, 1) == [v / 256 % 256] && ToLE(v / 256 / 256 / 256, 1) == [v / 0x100_0000 % 256];
    assert ToLE(v / 256 / 256, 2) == [v / 0x1_0000 % 256] + ToLE(v / 256 / 256 / 256, 1);
    assert ToLE(v / 256, 3) == [v / 256 % 256] + ToLE(v / 256 / 256, 2);
  }

  /** The characters of a C string: everything before the first zero byte. */
  function CString(s: seq<byte>): (t: seq<byte>)
    ensures t <= s
    ensures 0 !in t
    ensures |t| < |s| ==> s[|t|] == 0
  {
    if s == [] || s[0] == 0 then [] else [s[0]] + CString(s[1..])
  }

  /** A terminating zero placed behind `s` cuts off whatever follows it. */
  lemma {:induction false} CStringTerminated(s: seq<byte>, t: seq<byte>)
    ensures CString(s + [0] + t) == CString(s)
    ensures 0 !in s ==> CString(s) == s
  {
    if s != [] && s[0] != 0 {
      assert (s + [0] + t)[1..] == s[1..] + [0] + t;
      CStringTerminated(s[1..], t);
    }
  }

  /** Bitwise operations on the `n` low bits of two numbers. */
  datatype BitOp = And | Or | Xor

  function Bit(op: BitOp, a: int, b: int): int
    requires 0 <= a < 2 && 0 <= b < 2
  {
    match op
    case And => a * b
    case Or => a + b - a * b
    case Xor => (a + b) % 2
  }

  function Bitwise(op: BitOp, a: nat, b: nat, n: nat): (r: nat)
    decreases n
  {
    if n == 0 then 0
    else
      var low := Bit(op, a % 2, b % 2);
      (if low == 1 then 1 else 0) + 2 * Bitwise(op, a / 2, b / 2, n - 1)
  }

  function Pow2(n: nat): (p: nat)
    ensures p >= 1
  {
    if n == 0 then 1 else 2 * Pow2(n - 1)
  }

  lemma {:induction false} BitwiseRange(op: BitOp, a: nat, b: nat, n: nat)
    ensures Bitwise(op, a, b, n) < Pow2(n)
  {
    if n > 0 {
      BitwiseRange(op, a / 2, b / 2, n - 1);
    }
  }

  function ByteOp(op: BitOp, a: byte, b: byte): byte {
    BitwiseRange(op, a, b, 8);
    assert Pow2(8) == 256;
    Bitwise(op, a, b, 8)
  }

  lemma HalfDivided(a: nat, p: nat)
    requires p > 0
    ensures a / (2 * p) == a / 2 / p
  {
    var q, r := a / 2 / p, a / 2 % p;
    assert a / 2 == q * p + r;
    assert a == q * (2 * p) + (2 * r + a % 2);
    DivModUnique(a, q, 2 * r + a % 2, 2 * p);
  }

  lemma BitwiseHalves(op: BitOp, a: nat, b: nat, n: nat)
    requires n > 0
    ensures var r := Bitwise(op, a, b, n);
      r % 2 == Bit(op, a % 2, b % 2) && r / 2 == Bitwise(op, a / 2, b / 2, n - 1)
  {
    BitTable(op, a % 2, b % 2);
  }

  /** Bit number `k`. */
  function BitAt(a: nat, k: nat): (r: nat)
    ensures r < 2
  {
    a / Pow2(k) % 2
  }

  lemma BitAtHalf(a: nat, k: nat)
    ensures BitAt(a, 0) == a % 2
    ensures k > 0 ==> BitAt(a, k) == BitAt(a / 2, k - 1)
  {
    if k > 0 {
      HalfDivided(a, Pow2(k - 1));
    }
  }

  lemma {:induction false} BitwiseBit(op: BitOp, a: nat, b: nat, n: nat, k: nat)
    requires k < n
    ensures BitAt(Bitwise(op, a, b, n), k) == Bit(op, BitAt(a, k), BitAt(b, k))
    decreases k
  {
    hide Bitwise, Bit, BitAt;
    BitwiseHalves(op, a, b, n);
    BitAtHalf(a, k);
    BitAtHalf(b, k);
    BitAtHalf(Bitwise(op, a, b, n), k);
    if k > 0 {
      BitwiseBit(op, a / 2, b / 2, n - 1, k - 1);
    }
  }

  /** Numbers of `n` bits are the same if all their bits are. */
  lemma {:induction false} SameBits(a: nat, b: nat, n: nat)
    requires a < Pow2(n) && b < Pow2(n)
    requires forall k :: 0 <= k < n ==> BitAt(a, k) == BitAt(b, k)
    ensures a == b
  {
    if n > 0 {
      forall k | 0 <= k < n - 1 ensures BitAt(a / 2, k) == BitAt(b / 2, k) {
        BitAtHalf(a, k + 1);
        BitAtHalf(b, k + 1);
      }
      SameBits(a / 2, b / 2, n - 1);
      BitAtHalf(a, 0);
      BitAtHalf(b, 0);
      assert BitAt(a, 0) == BitAt(b, 0);
    }
  }

  lemma BitTable(op: BitOp, x: int, y: int)
    requires 0 <= x < 2 && 0 <= y < 2
    ensures 0 <= Bit(op, x, y) < 2
    ensures Bit(op, x, y) == 1
            <==> match op
                 case And => x == 1 && y == 1
                 case Or => x == 1 || y == 1
                 case Xor => x != y
  {
    assert x == 0 || x == 1;
    assert y == 0 || y == 1;
  }

  /** The truth tables, bit by bit. */
  lemma ByteOpBits(op: BitOp, a: byte, b: byte, k: nat)
    requires k < 8
    ensures var x, y := BitAt(a, k) == 1, BitAt(b, k) == 1;
      BitAt(ByteOp(op, a, b), k) == 1
      <==> match op
           case And => x && y
           case Or => x || y
           case Xor => x != y
  {
    hide Bitwise, Bit, BitAt;
    BitwiseBit(op, a, b, 8, k);
    BitTable(op, BitAt(a, k), BitAt(b, k));
  }

  lemma {:induction false} XorCancels(a: nat, b: nat, n: nat)
    requires a < Pow2(n)
    ensures Bitwise(Xor, Bitwise(Xor, a, b, n), b, n) == a
  {
    if n > 0 {
      XorCancels(a / 2, b / 2, n - 1);
    }
  }

  lemma XorByteCancels(a: byte, b: byte)
    ensures ByteOp(Xor, ByteOp(Xor, a, b), b) == a
  {
    assert Pow2(8) == 256;
    XorCancels(a, b, 8);
  }

  lemma {:induction false} BitwiseOrZero(b: nat, n: nat)
    requires b < Pow2(n)
    ensures Bitwise(Or, 0, b, n) == b
  {
    if n > 0 {
      BitwiseOrZero(b / 2, n - 1);
    }
  }

  lemma OrZero(b: byte)
    ensures ByteOp(Or, 0, b) == b
  {
    assert Pow2(8) == 256;
    BitwiseOrZero(b, 8);
  }

  lemma SliceOfPrefix(s: seq<byte>, n: nat, lo: nat, hi: nat)
    requires lo <= hi <= n <= |s|
    ensures s[..n][lo..hi] == s[lo..hi] && s[..n][..hi] == s[..hi]
  {
  }

  /** `memcpy` to offset `at` of a buffer. */
  method CopyInto(dst: array<byte>, at: nat, src: seq<byte>)
    requires at + |src| <= dst.Length
    modifies dst
    ensures dst[..] == old(dst[..at]) + src + old(dst[at + |src|..])
  {
    forall i | 0 <= i < |src| {
      dst[at + i] := src[i];
    }
  }
}
