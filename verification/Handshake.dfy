/** The control frame that opens a connection, how the client builds it and what the server derives
    from it (src/xcc.hpp, src/socketIO_handler.hpp, src/xcd.hpp, src/xcd_protocol_handler.hpp). */
module Handshake {
  import opened Bytes
  import opened Ciphers
  import opened Frames

  const PV_NONE: u16 := 0
  const PV_LAST: u16 := 5
  const PROTOCOL_VERSION_VEC: seq<u16> := [0, 1, 2, 3, 4, 5]

  const SV_NONE: byte := 0
  const SV_PLAIN: byte := 1
  const SV_CHACHA20: byte := 2
  const SV_XCHACHA20POLY: byte := 3
  const SV_AES_GCM: byte := 4
  const SV_LAST: byte := 5

  /** The two lookup tables between protocol and security versions. */
  function SecVersion(pv: u16): (sv: byte)
    requires PV_NONE < pv < PV_LAST
    ensures SV_NONE < sv < SV_LAST
  {
    if pv == 1 then SV_PLAIN else if pv == 2 then SV_CHACHA20 else if pv == 3 then SV_XCHACHA20POLY else SV_AES_GCM
  }

  function ProVersion(sv: byte): (pv: u16)
    requires SV_NONE < sv < SV_LAST
    ensures PV_NONE < pv < PV_LAST && SecVersion(pv) == sv
  {
    if sv == SV_PLAIN then 1 else if sv == SV_CHACHA20 then 2 else if sv == SV_XCHACHA20POLY then 3 else 4
  }

  /** Each table undoes the other. */
  lemma VersionsInverse(sv: byte, pv: u16)
    requires SV_NONE < sv < SV_LAST && PV_NONE < pv < PV_LAST
    ensures SecVersion(ProVersion(sv)) == sv && ProVersion(SecVersion(pv)) == pv
  {
  }

  const CTRL_FRAME_SIZE := 5

  datatype CtrlFrame = CtrlFrame(pv: u16, sv: byte, flags: byte, id: byte)

  function EncodeCtrl(cf: CtrlFrame): (s: seq<byte>)
    ensures |s| == CTRL_FRAME_SIZE
  {
    ToLE(cf.pv, 2) + [cf.sv, cf.flags, cf.id]
  }

  function DecodeCtrl(s: seq<byte>): CtrlFrame
    requires |s| == CTRL_FRAME_SIZE
  {
    Powers();
    CtrlFrame(FromLE(s[..2]), s[2], s[3], s[4])
  }

  lemma CtrlRoundTrip(cf: CtrlFrame)
    ensures DecodeCtrl(EncodeCtrl(cf)) == cf
  {
    Powers();
    FromToLE(cf.pv, 2);
    assert EncodeCtrl(cf)[..2] == ToLE(cf.pv, 2);
  }

  predicate Flagged(flags: byte, flag: byte) { ByteOp(And, flags, flag) == flag }

  /** A flag is set when all its bits are; the encrypted flag has three. */
  lemma FlaggedIff(flags: byte, flag: byte)
    ensures Flagged(flags, flag) <==> forall k :: 0 <= k < 8 && BitAt(flag, k) == 1 ==> BitAt(flags, k) == 1
  {
    hide BitAt, ByteOp;
    var both := ByteOp(And, flags, flag);
    forall k | 0 <= k < 8
      ensures BitAt(both, k) == 1 <==> BitAt(flags, k) == 1 && BitAt(flag, k) == 1
    {
      ByteOpBits(And, flags, flag, k);
    }
    if forall k :: 0 <= k < 8 && BitAt(flag, k) == 1 ==> BitAt(flags, k) == 1 {
      assert Pow2(8) == 256;
      SameBits(both, flag, 8);
    }
  }

  /** The flags by their bits. */
  lemma FlagBits(flags: byte)
    ensures Flagged(flags, FLAG_NEW_TRANSMISSION) <==> BitAt(flags, 1) == 1
    ensures Flagged(flags, FLAG_BINARY_TRANSMISSION) <==> BitAt(flags, 3) == 1
    ensures Flagged(flags, FLAG_ENCRYPTED) <==> BitAt(flags, 1) == 1 && BitAt(flags, 2) == 1 && BitAt(flags, 4) == 1
  {
    hide Flagged, ByteOp;
    FlaggedIff(flags, FLAG_NEW_TRANSMISSION);
    FlaggedIff(flags, FLAG_BINARY_TRANSMISSION);
    FlaggedIff(flags, FLAG_ENCRYPTED);
    BitsOfFlags();
    hide BitAt;
  }

  lemma BitsOfFlags()
    ensures forall k :: 0 <= k < 8 ==> (BitAt(0x02, k) == 1 <==> k == 1)
    ensures forall k :: 0 <= k < 8 ==> (BitAt(0x08, k) == 1 <==> k == 3)
    ensures forall k :: 0 <= k < 8 ==> (BitAt(0x16, k) == 1 <==> k == 1 || k == 2 || k == 4)
  {
    hide BitAt;
    forall k | 0 <= k < 8
      ensures BitAt(0x02, k) == 1 <==> k == 1
      ensures BitAt(0x08, k) == 1 <==> k == 3
      ensures BitAt(0x16, k) == 1 <==> k == 1 || k == 2 || k == 4
    {
      BitsFrom(0x02, k);
      BitsFrom(0x08, k);
      BitsFrom(0x16, k);
    }
  }

  /** The bits of a small number, lowest first. */
  lemma BitsFrom(a: nat, k: nat)
    requires a < 32
    ensures BitAt(a, k) ==
            if k == 0 then a % 2 else if k == 1 then a / 2 % 2 else if k == 2 then a / 4 % 2
            else if k == 3 then a / 8 % 2 else if k == 4 then a / 16 % 2 else 0
  {
    hide BitAt;
    BitAtHalf(a, k);
    if k > 0 {
      BitAtHalf(a / 2, k - 1);
    }
    if k > 1 {
      BitAtHalf(a / 4, k - 2);
    }
    if k > 2 {
      BitAtHalf(a / 8, k - 3);
    }
    if k > 3 {
      BitAtHalf(a / 16, k - 4);
    }
    if k > 4 {
      NoBits(k - 5);
    }
  }

  lemma {:induction false} NoBits(k: nat)
    ensures BitAt(0, k) == 0
  {
    BitAtHalf(0, k);
    if k > 0 {
      NoBits(k - 1);
    }
  }

  function CipherOf(sv: byte): Cipher
    requires SV_PLAIN < sv < SV_LAST
  {
    if sv == SV_CHACHA20 then ChaCha20Poly1305 else if sv == SV_XCHACHA20POLY then XChaCha20Poly1305 else AesGcm
  }

  /** The state of a connection under security version `sv` right after both ends derived the session key. */
  function SessionLink(crypto: Crypto, sv: byte, key: seq<byte>, iv: seq<byte>): Link
    requires SV_NONE < sv < SV_LAST
  {
    if sv == SV_PLAIN then Plain
    else Sealed(crypto, CipherOf(sv), DeriveKey(crypto, key, iv), iv)
  }

  // ---------- client ----------

  class ControlFrame {
    var frameIntern: CtrlFrame

    constructor ()
      ensures frameIntern == CtrlFrame(PV_NONE, SV_NONE, 0, 0)
    {
      frameIntern := CtrlFrame(PV_NONE, SV_NONE, 0, 0);
    }

    method SetFlag(flag: byte)
      modifies this
      ensures frameIntern == old(frameIntern).(flags := ByteOp(Or, old(frameIntern).flags, flag))
    {
      frameIntern := frameIntern.(flags := ByteOp(Or, frameIntern.flags, flag));
    }

    /** Hands the frame out and resets it. */
    method GetCtrlFrame() returns (cf: CtrlFrame)
      modifies this
      ensures cf == old(frameIntern) && frameIntern == CtrlFrame(PV_NONE, SV_NONE, 0, 0)
    {
      cf := frameIntern;
      frameIntern := CtrlFrame(PV_NONE, SV_NONE, 0, 0);
    }
  }

  /** The control frame of a client that sends a file or a message under `sv`. */
  function ClientCtrl(sv: byte, file: bool, id: byte): CtrlFrame
    requires SV_NONE < sv < SV_LAST
  {
    var new_ := ByteOp(Or, 0, FLAG_NEW_TRANSMISSION);
    var secured := if sv == SV_PLAIN then new_ else ByteOp(Or, new_, FLAG_ENCRYPTED);
    CtrlFrame(ProVersion(sv), sv, if file then ByteOp(Or, secured, FLAG_BINARY_TRANSMISSION) else secured, id)
  }

  method BuildCtrlFrame(sv: byte, pv: u16, file: bool, id: byte) returns (cf: CtrlFrame)
    requires SV_NONE < sv < SV_LAST && pv == ProVersion(sv)
    ensures cf == ClientCtrl(sv, file, id)
  {
    var control := new ControlFrame();
    control.frameIntern := control.frameIntern.(pv := pv, sv := sv);
    control.SetFlag(FLAG_NEW_TRANSMISSION);
    if sv != SV_PLAIN {
      control.SetFlag(FLAG_ENCRYPTED);
    }
    control.frameIntern := control.frameIntern.(id := id);
    if file {
      control.SetFlag(FLAG_BINARY_TRANSMISSION);
    }
    cf := control.GetCtrlFrame();
  }

  /** The bytes a client opens with: the control frame and, if encrypted, its initial IV. */
  function Hello(sv: byte, file: bool, id: byte, iv: seq<byte>): seq<byte>
    requires SV_NONE < sv < SV_LAST
  {
    EncodeCtrl(ClientCtrl(sv, file, id)) + if sv == SV_PLAIN then [] else iv
  }

  /** The opening byte by byte: protocol version, security version, flags, id, and the IV if there is a cipher. */
  lemma OpeningBytes(sv: byte, file: bool, id: byte, iv: seq<byte>)
    requires 1 <= sv <= 4
    ensures Hello(sv, file, id, iv) ==
            [sv, 0, sv, if sv == 1 then (if file then 10 else 2) else if file then 30 else 22, id]
            + if sv == 1 then [] else iv
  {
    hide ByteOp;
    OrZero(0x02);
    OrEncrypted();
    OrBinary();
    ToLEBytes(ProVersion(sv));
  }

  // ---------- server ----------

  method PvIsValid(pv: u16) returns (valid: bool)
    ensures valid <==> PV_NONE < pv < PV_LAST
  {
    valid := false;
    if PV_NONE < pv < PV_LAST {
      for i := 0 to |PROTOCOL_VERSION_VEC|
        invariant !valid && forall j :: 0 <= j < i ==> PROTOCOL_VERSION_VEC[j] != pv
      {
        valid := pv == PROTOCOL_VERSION_VEC[i];
        if valid {
          break;
        }
      }
      assert PROTOCOL_VERSION_VEC[pv] == pv;
    }
  }

  method SvIsValid(sv: byte, allowed: seq<byte>) returns (valid: bool)
    ensures valid <==> SV_NONE < sv < SV_LAST && sv in allowed
  {
    valid := false;
    if SV_NONE < sv < SV_LAST {
      for i := 0 to |allowed|
        invariant !valid && forall j :: 0 <= j < i ==> allowed[j] != sv
      {
        valid := sv == allowed[i];
        if valid {
          break;
        }
      }
    }
  }

  predicate Admitted(cf: CtrlFrame, allowed: seq<byte>) {
    && SV_NONE < cf.sv < SV_LAST && cf.sv in allowed
    && PV_NONE < cf.pv < PV_LAST
    && (Flagged(cf.flags, FLAG_NEW_TRANSMISSION) || Flagged(cf.flags, FLAG_BINARY_TRANSMISSION))
    && cf.id > 0
  }

  method CtrlFrameValid(cf: CtrlFrame, allowed: seq<byte>) returns (valid: bool)
    ensures valid <==> Admitted(cf, allowed)
    ensures valid <==>
              && 1 <= cf.sv <= 4 && cf.sv in allowed && 1 <= cf.pv <= 4 && cf.id > 0
              && (BitAt(cf.flags, 1) == 1 || BitAt(cf.flags, 3) == 1)
  {
    hide Flagged, BitAt;
    FlagBits(cf.flags);
    var svOk := SvIsValid(cf.sv, allowed);
    if !svOk {
      return false;
    }
    var pvOk := PvIsValid(cf.pv);
    if !pvOk {
      return false;
    }
    valid := Flagged(cf.flags, FLAG_NEW_TRANSMISSION) || Flagged(cf.flags, FLAG_BINARY_TRANSMISSION);
    valid := valid && cf.id > 0;
  }

  /** What the server takes over from the opening bytes of a connection, and the bytes it leaves. */
  datatype Session = Refused | Open(link: Link, file: bool, id: byte, rest: seq<byte>)

  /** Whether there is a cipher to read the announced IV for; the cipher follows from the protocol version. */
  predicate Workable(cf: CtrlFrame)
    requires PV_NONE < cf.pv < PV_LAST
  {
    Flagged(cf.flags, FLAG_ENCRYPTED) ==> SecVersion(cf.pv) != SV_PLAIN
  }

  function OpenSession(crypto: Crypto, allowed: seq<byte>, keyFile: seq<byte>, s: seq<byte>): Session {
    if |s| < CTRL_FRAME_SIZE || !Admitted(DecodeCtrl(s[..CTRL_FRAME_SIZE]), allowed) then Refused
    else OpenAdmitted(crypto, keyFile, DecodeCtrl(s[..CTRL_FRAME_SIZE]), s[CTRL_FRAME_SIZE..])
  }

  /** A control frame without the encrypted flag starts a cipher as it is, without IV and key. */
  function OpenAdmitted(crypto: Crypto, keyFile: seq<byte>, cf: CtrlFrame, tail: seq<byte>): Session
    requires PV_NONE < cf.pv < PV_LAST
  {
    var sv, file := SecVersion(cf.pv), Flagged(cf.flags, FLAG_BINARY_TRANSMISSION);
    if !Workable(cf) then Refused
    else if sv == SV_PLAIN then Open(Plain, file, cf.id, tail)
    else if !Flagged(cf.flags, FLAG_ENCRYPTED) then Open(BlankLink(crypto, CipherOf(sv)), file, cf.id, tail)
    else
      var n := CipherOf(sv).IvSize();
      if |tail| < n || |keyFile| < KEY_SIZE then Refused
      else Open(SessionLink(crypto, sv, keyFile[..KEY_SIZE], tail[..n]), file, cf.id, tail[n..])
  }

  /** Whether the server takes what a connection begins with: a control frame of 5 bytes that passes the checks, no
      encryption for protocol version 1, and if it is announced for another, an initial IV and a key. */
  ghost predicate Opens(allowed: seq<byte>, keyFile: seq<byte>, s: seq<byte>) {
    && |s| >= 5 && s[1] == 0 && 1 <= s[0] <= 4 && 1 <= s[2] <= 4 && s[2] in allowed && s[4] > 0
    && (BitAt(s[3], 1) == 1 || BitAt(s[3], 3) == 1)
    && (Announced(s[3]) ==> s[0] != 1 && |s| >= 5 + IvBytes(s[0]) && |keyFile| >= 32)
  }

  predicate Announced(flags: byte) { BitAt(flags, 1) == 1 && BitAt(flags, 2) == 1 && BitAt(flags, 4) == 1 }

  function IvBytes(pv: byte): nat { if pv == 1 then 0 else if pv == 3 then 24 else 12 }

  /** On every byte stream: whether a session is opened, and which. */
  lemma OpensIff(crypto: Crypto, allowed: seq<byte>, keyFile: seq<byte>, s: seq<byte>)
    ensures var r := OpenSession(crypto, allowed, keyFile, s);
      && (r.Open? <==> Opens(allowed, keyFile, s))
      && (r.Open? ==>
            && (r.link.Plain? <==> s[0] == 1)
            && (s[0] == 2 ==> r.link.cipher == ChaCha20Poly1305)
            && (s[0] == 3 ==> r.link.cipher == XChaCha20Poly1305)
            && (s[0] == 4 ==> r.link.cipher == AesGcm)
            && (r.file <==> BitAt(s[3], 3) == 1) && r.id == s[4]
            && r.rest == s[if Announced(s[3]) then 5 + IvBytes(s[0]) else 5..]
            && (Announced(s[3]) ==>
                  && r.link.crypto == crypto && r.link.iv == s[5..5 + IvBytes(s[0])] && |r.link.key| == 32
                  && forall i :: 0 <= i < 32 ==> r.link.key[i] == crypto.hkdf(keyFile[..32], r.link.iv, i)))
  {
    hide Flagged, BitAt, BlankLink, DecodeCtrl;
    if |s| >= CTRL_FRAME_SIZE {
      CtrlFields(s[..CTRL_FRAME_SIZE]);
      FlagBits(s[3]);
      var n := IvBytes(s[0]);
      assert |s| >= 5 + n ==> s[5..][..n] == s[5..5 + n] && s[5..][n..] == s[5 + n..];
    }
  }

  lemma CtrlFields(s: seq<byte>)
    requires |s| == CTRL_FRAME_SIZE
    ensures var cf, high: int := DecodeCtrl(s), s[1];
      cf.pv == s[0] + 256 * high && cf.sv == s[2] && cf.flags == s[3] && cf.id == s[4]
  {
    assert FromLE(s[..2][1..]) == s[1] + 256 * FromLE([]);
  }

  /** The security version under which a connection runs. */
  function VersionOf(link: Link): byte {
    if link.Plain? then SV_PLAIN
    else if link.cipher.ChaCha20Poly1305? then SV_CHACHA20
    else if link.cipher.XChaCha20Poly1305? then SV_XCHACHA20POLY
    else SV_AES_GCM
  }

  /** The whitelist is compared with the security version, while the cipher follows from the protocol version: an open
      session runs under a whitelisted version exactly if its protocol version belongs to one. */
  lemma WhitelistedIff(crypto: Crypto, allowed: seq<byte>, keyFile: seq<byte>, s: seq<byte>)
    requires OpenSession(crypto, allowed, keyFile, s).Open?
    ensures var cf := DecodeCtrl(s[..CTRL_FRAME_SIZE]);
      && cf.sv in allowed && PV_NONE < cf.pv < PV_LAST
      && (VersionOf(OpenSession(crypto, allowed, keyFile, s).link) in allowed <==> SecVersion(cf.pv) in allowed)
  {
    hide DecodeCtrl, Flagged;
  }

  /** The two can disagree: under a whitelist of AES alone, these five bytes open a plain session. */
  lemma VersionsDisagree(crypto: Crypto, keyFile: seq<byte>, rest: seq<byte>)
    ensures var s := EncodeCtrl(CtrlFrame(1, SV_AES_GCM, FLAG_NEW_TRANSMISSION, 1)) + rest;
      OpenSession(crypto, [SV_AES_GCM], keyFile, s) == Open(Plain, false, 1, rest)
  {
    var cf := CtrlFrame(1, SV_AES_GCM, FLAG_NEW_TRANSMISSION, 1);
    CtrlRoundTrip(cf);
    hide EncodeCtrl, DecodeCtrl, ByteOp;
    AndNew();
    AndEncrypted();
    AndBinary();
    var s := EncodeCtrl(cf) + rest;
    assert s[..CTRL_FRAME_SIZE] == EncodeCtrl(cf) && s[CTRL_FRAME_SIZE..] == rest;
  }

  lemma HelloParses(sv: byte, file: bool, id: byte, iv: seq<byte>, rest: seq<byte>)
    requires SV_NONE < sv < SV_LAST
    ensures var s := Hello(sv, file, id, iv) + rest;
      && CTRL_FRAME_SIZE <= |s| && DecodeCtrl(s[..CTRL_FRAME_SIZE]) == ClientCtrl(sv, file, id)
      && s[CTRL_FRAME_SIZE..] == (if sv == SV_PLAIN then rest else iv + rest)
  {
    var cf := ClientCtrl(sv, file, id);
    CtrlRoundTrip(cf);
    hide EncodeCtrl, DecodeCtrl, ClientCtrl, ByteOp;
    var head, tail := EncodeCtrl(cf), if sv == SV_PLAIN then [] else iv;
    var s := Hello(sv, file, id, iv) + rest;
    assert s == head + (tail + rest);
    assert s[..CTRL_FRAME_SIZE] == head && s[CTRL_FRAME_SIZE..] == tail + rest;
    assert [] + rest == rest;
  }

  lemma AdmittedAsClient(sv: byte, file: bool, id: byte, allowed: seq<byte>)
    requires SV_NONE < sv < SV_LAST
    ensures var cf := ClientCtrl(sv, file, id);
      && cf.sv == sv && cf.id == id && PV_NONE < cf.pv < PV_LAST && SecVersion(cf.pv) == sv
      && (Admitted(cf, allowed) <==> sv in allowed && id > 0)
      && (Flagged(cf.flags, FLAG_ENCRYPTED) <==> sv != SV_PLAIN)
      && (Flagged(cf.flags, FLAG_BINARY_TRANSMISSION) <==> file)
  {
    hide Flagged, ByteOp;
    ClientFlags(sv, file, id);
  }

  lemma ClientFlags(sv: byte, file: bool, id: byte)
    requires SV_NONE < sv < SV_LAST
    ensures var cf := ClientCtrl(sv, file, id);
      && Flagged(cf.flags, FLAG_NEW_TRANSMISSION)
      && (Flagged(cf.flags, FLAG_ENCRYPTED) <==> sv != SV_PLAIN)
      && (Flagged(cf.flags, FLAG_BINARY_TRANSMISSION) <==> file)
  {
    hide ByteOp;
    OrEncrypted();
    OrBinary();
    AndNew();
    AndEncrypted();
    AndBinary();
  }

  lemma OrEncrypted()
    ensures ByteOp(Or, 0, 0x02) == 0x02 && ByteOp(Or, 0x02, 0x16) == 0x16
  {
  }

  lemma OrBinary()
    ensures ByteOp(Or, 0x02, 0x08) == 0x0A && ByteOp(Or, 0x16, 0x08) == 0x1E
  {
  }

  lemma AndNew()
    ensures ByteOp(And, 0x02, 0x02) == 0x02 && ByteOp(And, 0x0A, 0x02) == 0x02
    ensures ByteOp(And, 0x16, 0x02) == 0x02 && ByteOp(And, 0x1E, 0x02) == 0x02
  {
  }

  lemma AndEncrypted()
    ensures ByteOp(And, 0x02, 0x16) == 0x02 && ByteOp(And, 0x0A, 0x16) == 0x02
    ensures ByteOp(And, 0x16, 0x16) == 0x16 && ByteOp(And, 0x1E, 0x16) == 0x16
  {
  }

  lemma AndBinary()
    ensures ByteOp(And, 0x02, 0x08) == 0 && ByteOp(And, 0x16, 0x08) == 0
    ensures ByteOp(And, 0x0A, 0x08) == 0x08 && ByteOp(And, 0x1E, 0x08) == 0x08
  {
  }

  /** For every whitelist, mode and security version, the server takes what the client opens with exactly when
      the version is whitelisted, the transmission id is positive and, if needed, there is a key. It then has the
      client's cipher, session key, IV and transfer type, and has read exactly what the client sent. */
  lemma HandshakeIff(crypto: Crypto, allowed: seq<byte>, keyFile: seq<byte>, sv: byte, file: bool, id: byte,
      iv: seq<byte>, rest: seq<byte>)
    requires SV_NONE < sv < SV_LAST
    requires sv != SV_PLAIN ==> |iv| == CipherOf(sv).IvSize()
    ensures OpenSession(crypto, allowed, keyFile, Hello(sv, file, id, iv) + rest) ==
            if sv in allowed && id > 0 && (sv == SV_PLAIN || |keyFile| >= KEY_SIZE)
            then Open(SessionLink(crypto, sv, if sv == SV_PLAIN then [] else keyFile[..KEY_SIZE], iv), file, id, rest)
            else Refused
  {
    hide DecodeCtrl, Hello, ClientCtrl, Admitted, Flagged;
    HelloParses(sv, file, id, iv, rest);
    AdmittedAsClient(sv, file, id, allowed);
    assert sv != SV_PLAIN ==> (iv + rest)[..|iv|] == iv && (iv + rest)[|iv|..] == rest;
  }
}
