/** Data frames: the packed header, the sealed form of a frame, and what a receiver accepts.
    Frame layout and sizes follow src/xchange.hpp, the sealed form the cipher handlers. */
module Frames {
  import opened Bytes
  import opened Fletcher
  import opened Nonce

  const HEADER := 10
  const FRAME := 1460
  const BLOCK_PLAIN := FRAME - HEADER
  const MAC := 16
  const SEALED := FRAME - MAC
  const BLOCK_SEALED := SEALED - HEADER

  const FLAG_DATA_FRAME: byte := 0x01
  const FLAG_NEW_TRANSMISSION: byte := 0x02
  const FLAG_END_OF_TRANSMISSION: byte := 0x04
  const FLAG_BINARY_TRANSMISSION: byte := 0x08
  const FLAG_ENCRYPTED: byte := 0x16

  // ---------- header ----------

  datatype Header = Header(order: u32, chksum: u16, size: u16, flags: byte, id: byte)

  function EncodeHeader(h: Header): (s: seq<byte>)
    ensures |s| == HEADER
  {
    ToLE(h.order, 4) + ToLE(h.chksum, 2) + ToLE(h.size, 2) + [h.flags, h.id]
  }

  function DecodeHeader(s: seq<byte>): Header
    requires |s| == HEADER
  {
    Powers();
    Header(FromLE(s[0..4]), FromLE(s[4..6]), FromLE(s[6..8]), s[8], s[9])
  }

  lemma Powers()
    ensures Pow256(4) == ROLLOVER && Pow256(2) == 0x1_0000
  {
  }

  lemma HeaderRoundTrip(h: Header)
    ensures DecodeHeader(EncodeHeader(h)) == h
  {
    Powers();
    var s := EncodeHeader(h);
    assert s[0..4] == ToLE(h.order, 4) && s[4..6] == ToLE(h.chksum, 2) && s[6..8] == ToLE(h.size, 2);
    FromToLE(h.order, 4);
    FromToLE(h.chksum, 2);
    FromToLE(h.size, 2);
  }

  lemma HeaderBytesRoundTrip(s: seq<byte>)
    requires |s| == HEADER
    ensures EncodeHeader(DecodeHeader(s)) == s
  {
    ToFromLE(s[0..4]);
    ToFromLE(s[4..6]);
    ToFromLE(s[6..8]);
  }

  /** Where each field of the packed header lies. */
  lemma HeaderLayout(h: Header)
    ensures EncodeHeader(h) ==
            [h.order % 256, h.order / 0x100 % 256, h.order / 0x1_0000 % 256, h.order / 0x100_0000 % 256,
             h.chksum % 256, h.chksum / 0x100 % 256, h.size % 256, h.size / 0x100 % 256, h.flags, h.id]
  {
    ToLEBytes(h.order);
    ToLEBytes(h.chksum);
    ToLEBytes(h.size);
  }

  // ---------- authenticated encryption, up to its keystream and tag ----------

  datatype Cipher = ChaCha20Poly1305 | XChaCha20Poly1305 | AesGcm {
    function IvSize(): nat { if XChaCha20Poly1305? then 24 else 12 }
  }

  /** The primitives taken from the crypto library, as arbitrary functions:
      keystream(cipher, key, nonce, i), tag(cipher, key, nonce, ciphertext, i), hkdf(key, salt, i);
      and what the memory of a new decryption object holds, memory(cipher, i), which some ciphers clear. */
  datatype Crypto = Crypto(
    keystream: (Cipher, seq<byte>, seq<byte>, nat) -> byte,
    tag: (Cipher, seq<byte>, seq<byte>, seq<byte>, nat) -> byte,
    hkdf: (seq<byte>, seq<byte>, nat) -> byte,
    memory: (Cipher, nat) -> byte)

  /** `sealed` is `plain` under a keystream, byte by byte, followed by the tag over what has become of it. */
  ghost predicate SealedBytes(crypto: Crypto, cipher: Cipher, key: seq<byte>, nonce: seq<byte>, plain: seq<byte>,
      sealed: seq<byte>)
  {
    && |plain| == 1444 && |sealed| == 1460
    && (forall i :: 0 <= i < 1444 ==> sealed[i] == ByteOp(Xor, plain[i], crypto.keystream(cipher, key, nonce, i)))
    && (forall i :: 1444 <= i < 1460 ==> sealed[i] == crypto.tag(cipher, key, nonce, sealed[..1444], i - 1444))
  }

  /** One direction of a connection. `iv` is the counter before the next frame. */
  datatype Link =
    | Plain
    | Sealed(crypto: Crypto, cipher: Cipher, key: seq<byte>, iv: seq<byte>)
  {
    function BlockSize(): nat { if Plain? then BLOCK_PLAIN else BLOCK_SEALED }

    function Next(): Link { if Plain? then this else this.(iv := Increment(iv)) }

    function Mask(s: seq<byte>): (t: seq<byte>)
      requires Sealed?
      ensures |t| == |s|
    {
      seq<byte>(|s|, i requires 0 <= i < |s| => ByteOp(Xor, s[i], crypto.keystream(cipher, key, iv, i)))
    }

    function Tag(ciphertext: seq<byte>): (t: seq<byte>)
      requires Sealed?
      ensures |t| == MAC
    {
      seq<byte>(MAC, i requires 0 <= i < MAC => crypto.tag(cipher, key, iv, ciphertext, i))
    }

    function Seal(plain: seq<byte>): (s: seq<byte>)
      requires Sealed?
      ensures |s| == |plain| + MAC
    {
      Mask(plain) + Tag(Mask(plain))
    }

    predicate Authentic(s: seq<byte>)
      requires Sealed? && |s| == FRAME
    {
      Tag(s[..SEALED]) == s[SEALED..]
    }

    lemma MaskCancels(s: seq<byte>)
      requires Sealed?
      ensures Mask(Mask(s)) == s
    {
      forall i | 0 <= i < |s| ensures Mask(Mask(s))[i] == s[i] {
        XorByteCancels(s[i], crypto.keystream(cipher, key, iv, i));
      }
    }

    /** Opening inverts sealing, and only sealed frames open. */
    lemma OpenIffSealed(s: seq<byte>, plain: seq<byte>)
      requires Sealed? && |s| == FRAME && |plain| == SEALED
      ensures s == Seal(plain) <==> Authentic(s) && Mask(s[..SEALED]) == plain
    {
      MaskCancels(plain);
      MaskCancels(s[..SEALED]);
      assert s == s[..SEALED] + s[SEALED..];
      if s == Seal(plain) {
        assert s[..SEALED] == Mask(plain) && s[SEALED..] == Tag(Mask(plain));
      }
    }

    lemma SealBytes(plain: seq<byte>)
      requires Sealed? && |plain| == 1444
      ensures SealedBytes(crypto, cipher, key, iv, plain, Seal(plain))
    {
      hide ByteOp;
      assert Seal(plain)[..1444] == Mask(plain);
    }

    lemma OnlySealed(s: seq<byte>, plain: seq<byte>)
      requires Sealed? && SealedBytes(crypto, cipher, key, iv, plain, s)
      ensures s == Seal(plain)
    {
      hide ByteOp;
      var masked := Mask(plain);
      assert s[..1444] == masked;
      assert s[1444..] == Tag(masked);
    }

    /** A sealed frame opens to the very bytes it was made of, one by one. */
    lemma OpenBytes(s: seq<byte>, plain: seq<byte>)
      requires Sealed? && |s| == 1460 && |plain| == 1444
      ensures SealedBytes(crypto, cipher, key, iv, plain, s) <==> Authentic(s) && Mask(s[..1444]) == plain
    {
      hide SealedBytes, Seal;
      OpenIffSealed(s, plain);
      SealBytes(plain);
      if SealedBytes(crypto, cipher, key, iv, plain, s) {
        OnlySealed(s, plain);
      }
    }
  }

  // ---------- frames ----------

  /** What a frame carries; `pad` is the random filling of a sealed frame. */
  datatype Frame = Frame(flags: byte, data: seq<byte>, pad: seq<byte>)

  predicate WellFormed(link: Link, f: Frame) {
    && |f.data| <= link.BlockSize()
    && |f.pad| == (if link.Plain? then 0 else BLOCK_SEALED - |f.data|)
  }

  predicate AllWellFormed(link: Link, fs: seq<Frame>) {
    forall i :: 0 <= i < |fs| ==> WellFormed(link, fs[i])
  }

  function HeaderOf(f: Frame, order: u32, id: byte): Header
    requires |f.data| < 0x1_0000
  {
    Header(order, Checksum(f.data), |f.data|, f.flags, id)
  }

  function PlainBytes(f: Frame, order: u32, id: byte): (s: seq<byte>)
    requires |f.data| < 0x1_0000
    ensures |s| == HEADER + |f.data| + |f.pad|
  {
    EncodeHeader(HeaderOf(f, order, id)) + f.data + f.pad
  }

  /** The bytes of frame number `order` on the connection. */
  function Wire(link: Link, f: Frame, order: u32, id: byte): (s: seq<byte>)
    requires WellFormed(link, f)
    ensures |s| == if link.Plain? then HEADER + |f.data| else FRAME
  {
    if link.Plain? then PlainBytes(f, order, id) else link.Next().Seal(PlainBytes(f, order, id))
  }

  /** The bytes of consecutive frames, numbered from `order` with 32-bit rollover. */
  function Stream(link: Link, fs: seq<Frame>, order: u32, id: byte): seq<byte>
    requires AllWellFormed(link, fs)
    decreases fs
  {
    if fs == [] then []
    else Wire(link, fs[0], order, id) + Stream(link.Next(), fs[1..], Succ(order), id)
  }

  lemma StreamCons(link: Link, f: Frame, fs: seq<Frame>, order: u32, id: byte)
    requires WellFormed(link, f) && AllWellFormed(link.Next(), fs)
    ensures AllWellFormed(link, [f] + fs)
    ensures Stream(link, [f] + fs, order, id) == Wire(link, f, order, id) + Stream(link.Next(), fs, Succ(order), id)
  {
  }

  /** The connection state after `n` frames. */
  function After(link: Link, n: nat): (r: Link)
    ensures r.Plain? <==> link.Plain?
    decreases n
  {
    if n == 0 then link else After(link.Next(), n - 1)
  }

  function OrderAfter(order: u32, n: nat): u32 { (order + n) % ROLLOVER }

  lemma {:induction false} AfterStep(link: Link, n: nat)
    ensures After(link, n).Next() == After(link, n + 1)
    decreases n
  {
    if n > 0 {
      AfterStep(link.Next(), n - 1);
    }
  }

  /** Frame number n of a sealed connection uses the initial IV advanced n + 1 times, under an unchanged key. */
  lemma {:induction false} IvAfter(link: Link, n: nat)
    requires link.Sealed?
    ensures After(link, n) == link.(iv := Advance(link.iv, n))
  {
    if n > 0 {
      IvAfter(link, n - 1);
      AfterStep(link, n - 1);
    }
  }

  lemma OrderStep(order: u32, n: nat)
    ensures OrderAfter(order, 0) == order
    ensures n > 0 ==> OrderAfter(Succ(order), n - 1) == OrderAfter(order, n)
  {
  }

  lemma {:induction false} StreamAppend(link: Link, fs: seq<Frame>, gs: seq<Frame>, order: u32, id: byte)
    requires AllWellFormed(link, fs) && AllWellFormed(link, gs)
    ensures AllWellFormed(link, fs + gs) && AllWellFormed(After(link, |fs|), gs)
    ensures Stream(link, fs + gs, order, id) ==
            Stream(link, fs, order, id) + Stream(After(link, |fs|), gs, OrderAfter(order, |fs|), id)
    decreases fs
  {
    hide Wire, OrderAfter, Increment;
    if fs == [] {
      assert fs + gs == gs;
      OrderStep(order, 0);
    } else {
      assert (fs + gs)[1..] == fs[1..] + gs;
      StreamAppend(link.Next(), fs[1..], gs, Succ(order), id);
      OrderStep(order, |fs|);
    }
  }

  lemma SameBlockSize(link: Link, n: nat)
    ensures After(link, n).BlockSize() == link.BlockSize()
  {
  }

  lemma StreamSnoc(link: Link, fs: seq<Frame>, f: Frame, order: u32, id: byte)
    requires AllWellFormed(link, fs) && WellFormed(link, f)
    ensures AllWellFormed(link, fs + [f]) && WellFormed(After(link, |fs|), f)
    ensures Stream(link, fs + [f], order, id) ==
            Stream(link, fs, order, id) + Wire(After(link, |fs|), f, OrderAfter(order, |fs|), id)
  {
    hide Wire;
    StreamAppend(link, fs, [f], order, id);
    StreamCons(After(link, |fs|), f, [], OrderAfter(order, |fs|), id);
    assert [f] + [] == [f];
  }

  lemma OrderSucc(order: u32, n: nat)
    ensures Succ(OrderAfter(order, n)) == OrderAfter(order, n + 1)
  {
  }

  /** All payload bytes of a run of frames. */
  function Payloads(fs: seq<Frame>): seq<byte> {
    if fs == [] then [] else fs[0].data + Payloads(fs[1..])
  }

  // ---------- receiving one frame ----------

  /** The bytes of one frame taken apart, before any check of the header but its size. */
  datatype Raw = Incomplete | Raw(h: Header, data: seq<byte>, pad: seq<byte>, rest: seq<byte>)

  /** Splits the plain bytes of a frame into header, payload and filling. */
  function Split(plain: seq<byte>, rest: seq<byte>, maxSize: nat): (raw: Raw)
    requires HEADER + maxSize <= |plain|
    ensures raw.Raw? ==> raw.h.size == |raw.data| <= maxSize && HEADER + |raw.data| + |raw.pad| == |plain|
  {
    var h := DecodeHeader(plain[..HEADER]);
    if h.size > maxSize then Incomplete
    else Raw(h, plain[HEADER..HEADER + h.size], plain[HEADER + h.size..], rest)
  }

  function Deframe(link: Link, s: seq<byte>): (raw: Raw)
    ensures raw.Raw? ==> raw.h.size == |raw.data| && WellFormed(link, Frame(raw.h.flags, raw.data, raw.pad))
  {
    if link.Plain? then
      if |s| < HEADER then Incomplete
      else
        var h := DecodeHeader(s[..HEADER]);
        if h.size > BLOCK_PLAIN || |s| < HEADER + h.size then Incomplete
        else
          assert s[..HEADER + h.size][..HEADER] == s[..HEADER];
          Split(s[..HEADER + h.size], s[HEADER + h.size..], h.size)
    else
      if |s| < FRAME || !link.Next().Authentic(s[..FRAME]) then Incomplete
      else Split(link.Next().Mask(s[..SEALED]), s[FRAME..], BLOCK_SEALED)
  }

  datatype Reading = Rejected | Accepted(frame: Frame, rest: seq<byte>)

  predicate IsEot(flags: byte) {
    ByteOp(And, flags, FLAG_END_OF_TRANSMISSION) != 0
  }

  /** The checks every frame passes, in the order of the source. */
  predicate Verified(h: Header, data: seq<byte>, order: u32, id: byte) {
    && h.id == id
    && h.order == order
    && Checksum(data) == h.chksum
    && Succ(order) != 0
    && (h.size == 0 ==> IsEot(h.flags))
  }

  /** Reads the next frame of the byte stream `s`, of which nothing is missing but what was cut off. */
  function ReadFrame(link: Link, s: seq<byte>, order: u32, id: byte): (r: Reading)
    ensures r.Accepted? ==> order < ROLLOVER - 1 && WellFormed(link, r.frame)
  {
    match Deframe(link, s)
    case Incomplete => Rejected
    case Raw(h, data, pad, rest) =>
      if Verified(h, data, order, id) then Accepted(Frame(h.flags, data, pad), rest) else Rejected
  }

  /** Whether the receiver takes `f` as frame number `order`. */
  predicate Acceptable(link: Link, f: Frame, order: u32) {
    && WellFormed(link, f)
    && order != ROLLOVER - 1
    && (f.data == [] ==> IsEot(f.flags))
  }

  /** Splitting recovers a frame exactly from the bytes it was built of. */
  lemma SplitIff(s: seq<byte>, f: Frame, order: u32, id: byte, rest: seq<byte>, maxSize: nat)
    requires |f.data| <= maxSize < 0x1_0000 && HEADER + maxSize <= |s| == HEADER + |f.data| + |f.pad|
    ensures s == PlainBytes(f, order, id)
            <==> Split(s, rest, maxSize) == Raw(HeaderOf(f, order, id), f.data, f.pad, rest)
  {
    var h, n := HeaderOf(f, order, id), HEADER + |f.data|;
    assert s == s[..HEADER] + s[HEADER..n] + s[n..];
    if s == PlainBytes(f, order, id) {
      assert s[..HEADER] == EncodeHeader(h) && s[HEADER..n] == f.data && s[n..] == f.pad;
      HeaderRoundTrip(h);
    }
    HeaderBytesRoundTrip(s[..HEADER]);
  }

  lemma DeframeWire(link: Link, f: Frame, order: u32, id: byte, rest: seq<byte>)
    requires WellFormed(link, f)
    ensures Deframe(link, Wire(link, f, order, id) + rest) == Raw(HeaderOf(f, order, id), f.data, f.pad, rest)
  {
    hide EncodeHeader, DecodeHeader, Checksum;
    var plain, w := PlainBytes(f, order, id), Wire(link, f, order, id);
    var s := w + rest;
    assert s[..|w|] == w && s[|w|..] == rest;
    if link.Plain? {
      SplitIff(w, f, order, id, rest, |f.data|);
      assert s[..HEADER] == w[..HEADER];
    } else {
      hide Split, PlainBytes;
      assert s[..SEALED] == w[..SEALED];
      link.Next().OpenIffSealed(w, plain);
      SplitIff(plain, f, order, id, rest, BLOCK_SEALED);
    }
  }

  lemma DeframedWasWire(link: Link, s: seq<byte>, f: Frame, order: u32, id: byte, rest: seq<byte>)
    requires WellFormed(link, f)
    requires Deframe(link, s) == Raw(HeaderOf(f, order, id), f.data, f.pad, rest)
    ensures s == Wire(link, f, order, id) + rest
  {
    hide EncodeHeader, DecodeHeader, Checksum;
    if link.Plain? {
      var n := HEADER + |f.data|;
      assert s == s[..n] + s[n..];
      SplitIff(s[..n], f, order, id, rest, |f.data|);
    } else {
      hide PlainBytes;
      var plain := link.Next().Mask(s[..SEALED]);
      assert s == s[..FRAME] + s[FRAME..] && s[..FRAME][..SEALED] == s[..SEALED];
      SplitIff(plain, f, order, id, rest, BLOCK_SEALED);
      link.Next().OpenIffSealed(s[..FRAME], plain);
    }
  }

  lemma ReadsWhatWasSent(link: Link, f: Frame, rest: seq<byte>, order: u32, id: byte)
    requires WellFormed(link, f)
    ensures ReadFrame(link, Wire(link, f, order, id) + rest, order, id) ==
            if Acceptable(link, f, order) then Accepted(f, rest) else Rejected
  {
    hide Deframe, Wire;
    DeframeWire(link, f, order, id, rest);
  }

  lemma AcceptedWasSent(link: Link, s: seq<byte>, f: Frame, rest: seq<byte>, order: u32, id: byte)
    requires ReadFrame(link, s, order, id) == Accepted(f, rest)
    ensures Acceptable(link, f, order) && s == Wire(link, f, order, id) + rest
  {
    hide Deframe, Wire;
    DeframedWasWire(link, s, f, order, id, rest);
  }

  /** A byte stream is read as `f` followed by `rest` exactly when it is the encoding of an acceptable `f`,
      then `rest`; for plain and for sealed connections alike. */
  lemma ReadFrameIff(link: Link, s: seq<byte>, f: Frame, rest: seq<byte>, order: u32, id: byte)
    ensures ReadFrame(link, s, order, id) == Accepted(f, rest)
            <==> Acceptable(link, f, order) && s == Wire(link, f, order, id) + rest
  {
    hide ReadFrame, Wire;
    if ReadFrame(link, s, order, id) == Accepted(f, rest) {
      AcceptedWasSent(link, s, f, rest, order, id);
    } else if Acceptable(link, f, order) && s == Wire(link, f, order, id) + rest {
      ReadsWhatWasSent(link, f, rest, order, id);
    }
  }

  // ---------- both counters in step ----------

  lemma {:induction false} SealedLength(link: Link, fs: seq<Frame>, order: u32, id: byte)
    requires link.Sealed? && AllWellFormed(link, fs)
    ensures |Stream(link, fs, order, id)| == FRAME * |fs|
    decreases fs
  {
    hide Wire;
    if fs != [] {
      SealedLength(link.Next(), fs[1..], Succ(order), id);
    }
  }

  /** Of any run of sealed frames, whatever their padding, frame number k is the k-th piece of 1460 bytes; after k
      frames each, sender and receiver have the same IV, and with it the receiver recovers exactly that frame. */
  lemma InStep(link: Link, fs: seq<Frame>, order: u32, id: byte, k: nat)
    requires link.Sealed? && AllWellFormed(link, fs) && k < |fs|
    ensures After(link, k) == link.(iv := Advance(link.iv, k))
    ensures var s := Stream(link, fs, order, id);
      && |s| == FRAME * |fs| && FRAME * (k + 1) <= |s|
      && Deframe(link.(iv := Advance(link.iv, k)), s[FRAME * k..])
         == Raw(HeaderOf(fs[k], OrderAfter(order, k), id), fs[k].data, fs[k].pad, s[FRAME * (k + 1)..])
  {
    hide Wire, Deframe, OrderAfter, HeaderOf;
    var s, now, o := Stream(link, fs, order, id), After(link, k), OrderAfter(order, k);
    IvAfter(link, k);
    assert fs == fs[..k] + fs[k..];
    StreamAppend(link, fs[..k], fs[k..], order, id);
    SealedLength(link, fs[..k], order, id);
    SealedLength(link, fs, order, id);
    var head, tail := Wire(now, fs[k], o, id), Stream(now.Next(), fs[k..][1..], Succ(o), id);
    assert s == Stream(link, fs[..k], order, id) + (head + tail);
    assert s[FRAME * k..] == head + tail && s[FRAME * (k + 1)..] == tail;
    SameBlockSize(link, k);
    DeframeWire(now, fs[k], o, id, tail);
  }

  // ---------- byte by byte ----------

  /** The plain bytes of frame number `order`: 10 bytes of header, the payload and the padding. */
  function Layout(f: Frame, order: u32, id: byte): seq<byte>
    requires |f.data| < 0x1_0000
  {
    var chksum, size := Checksum(f.data), |f.data|;
    [order % 256, order / 0x100 % 256, order / 0x1_0000 % 256, order / 0x100_0000 % 256,
     chksum % 256, chksum / 0x100 % 256, size % 256, size / 0x100 % 256, f.flags, id] + f.data + f.pad
  }

  lemma LayoutIs(f: Frame, order: u32, id: byte)
    requires |f.data| < 0x1_0000
    ensures PlainBytes(f, order, id) == Layout(f, order, id)
  {
    HeaderLayout(HeaderOf(f, order, id));
  }

  /** On a plain connection, frame number k is nothing but header and payload, in its turn. */
  lemma PlainPiece(fs: seq<Frame>, order: u32, id: byte, k: nat)
    requires AllWellFormed(Plain, fs) && k < |fs|
    ensures |fs[k].data| <= 1450 && fs[k].pad == []
    ensures Stream(Plain, fs, order, id) ==
            Stream(Plain, fs[..k], order, id) + Layout(fs[k], (order + k) % 0x1_0000_0000, id)
            + Stream(Plain, fs[k + 1..], (order + k + 1) % 0x1_0000_0000, id)
  {
    hide PlainBytes, Layout;
    PieceOf(Plain, fs, order, id, k);
    PlainAfter(k);
    LayoutIs(fs[k], OrderAfter(order, k), id);
  }

  lemma {:induction false} PlainAfter(k: nat)
    ensures After(Plain, k) == Plain
  {
    if k > 0 {
      PlainAfter(k - 1);
    }
  }

  /** Frame number k lies between those before and those after it. */
  lemma PieceOf(link: Link, fs: seq<Frame>, order: u32, id: byte, k: nat)
    requires AllWellFormed(link, fs) && k < |fs|
    ensures WellFormed(After(link, k), fs[k]) && AllWellFormed(After(link, k + 1), fs[k + 1..])
    ensures Stream(link, fs, order, id) ==
            Stream(link, fs[..k], order, id) + Wire(After(link, k), fs[k], OrderAfter(order, k), id)
            + Stream(After(link, k + 1), fs[k + 1..], OrderAfter(order, k + 1), id)
  {
    hide Wire, OrderAfter;
    assert fs == fs[..k] + fs[k..] && fs[k..] == [fs[k]] + fs[k + 1..];
    StreamAppend(link, fs[..k], fs[k..], order, id);
    AfterStep(link, k);
    OrderSucc(order, k);
    SameBlockSize(link, k + 1);
  }

  /** On an encrypted connection, frame number k takes 1460 bytes, sealed under the initial IV advanced k + 1 times. */
  lemma SealedPiece(crypto: Crypto, cipher: Cipher, key: seq<byte>, iv: seq<byte>, fs: seq<Frame>, order: u32, id: byte,
      k: nat)
    requires AllWellFormed(Sealed(crypto, cipher, key, iv), fs) && k < |fs|
    ensures |fs[k].data| + |fs[k].pad| == 1434
    ensures var s := Stream(Sealed(crypto, cipher, key, iv), fs, order, id);
      var plain := Layout(fs[k], (order + k) % 0x1_0000_0000, id);
      |s| == 1460 * |fs| && SealedBytes(crypto, cipher, key, Advance(iv, k + 1), plain, s[1460 * k..1460 * (k + 1)])
  {
    hide Layout, PlainBytes, Wire, OrderAfter, SealedBytes;
    var link := Sealed(crypto, cipher, key, iv);
    var now, o := After(link, k), OrderAfter(order, k);
    PieceOf(link, fs, order, id, k);
    IvAfter(link, k);
    SealedLength(link, fs, order, id);
    SealedLength(link, fs[..k], order, id);
    LayoutIs(fs[k], o, id);
    OrderIs(order, k);
    WireBytes(now, fs[k], o, id);
    assert Stream(link, fs, order, id)[1460 * k..1460 * (k + 1)] == Wire(now, fs[k], o, id);
  }

  lemma OrderIs(order: u32, k: nat)
    ensures OrderAfter(order, k) == (order + k) % 0x1_0000_0000
  {
  }

  lemma WireBytes(link: Link, f: Frame, order: u32, id: byte)
    requires link.Sealed? && WellFormed(link, f)
    ensures SealedBytes(link.crypto, link.cipher, link.key, Increment(link.iv), PlainBytes(f, order, id),
                        Wire(link, f, order, id))
  {
    hide PlainBytes;
    link.Next().SealBytes(PlainBytes(f, order, id));
  }
}
