/** Sending and receiving data frames over a socket: `DataFrame` of src/xcc.hpp and
    `SocketIO_Manager` of src/socketIO_handler.hpp. */
module SocketIO {
  import opened Bytes
  import opened Ciphers
  import opened Fletcher
  import opened Frames
  import opened Sio

  const EOT := -2

  const ACK_OK: u32 := 0
  const ACK_GENERAL_ERR: u32 := 1
  const ACK_FRAME_SIZE := 8
  const ACK_STRING: seq<byte> := [65, 67, 75, 0]

  function AckBytes(error: u32): (s: seq<byte>)
    ensures |s| == ACK_FRAME_SIZE
  {
    ACK_STRING + ToLE(error, 4)
  }

  /** The error code of an acknowledgement, or the general one when it is malformed. */
  function ReadAck(s: seq<byte>): (error: u32)
    requires |s| == ACK_FRAME_SIZE
    ensures error == ACK_OK <==> s == AckBytes(ACK_OK)
    ensures error == 0 <==> s == [65, 67, 75, 0, 0, 0, 0, 0]
  {
    AckForms(s);
    AckLayout();
    Powers();
    if s[..4] != ACK_STRING then ACK_GENERAL_ERR else FromLE(s[4..])
  }

  /** "ACK", a zero, and an error code of four bytes. */
  lemma AckLayout()
    ensures AckBytes(ACK_OK) == [65, 67, 75, 0, 0, 0, 0, 0]
  {
    ToLEBytes(ACK_OK);
  }

  lemma AckForms(s: seq<byte>)
    requires |s| == ACK_FRAME_SIZE
    ensures s == AckBytes(ACK_OK) <==> s[..4] == ACK_STRING && FromLE(s[4..]) == ACK_OK
  {
    assert s == s[..4] + s[4..];
    ToFromLE(s[4..]);
    Powers();
    FromToLE(ACK_OK, 4);
  }

  class DataFrame {
    var order: u32
    var flags: byte
    var id: byte
    var data: seq<byte>
    const transmitBuffer: array<byte>

    ghost predicate Valid() reads this { transmitBuffer.Length == FRAME && |data| <= BLOCK_PLAIN }

    constructor ()
      ensures Valid() && fresh(transmitBuffer) && flags == 0 && data == []
    {
      order, flags, id, data := 0, 0, 0, [];
      transmitBuffer := new byte[FRAME];
    }

    method SetFlag(flag: byte)
      modifies this`flags
      ensures flags == ByteOp(Or, old(flags), flag)
    {
      flags := ByteOp(Or, flags, flag);
    }

    method Reset()
      modifies this
      ensures flags == 0 && data == [] && order == 0 && id == 0
    {
      order, flags, id, data := 0, 0, 0, [];
    }

    /** Lays out header and payload in the transmit buffer. */
    method Construct()
      requires Valid()
      modifies transmitBuffer
      ensures transmitBuffer[..HEADER + |data|] == PlainBytes(Frame(flags, data, []), order, id)
    {
      var chksum := Fletcher16(data);
      var bytes := EncodeHeader(Header(order, chksum, |data|, flags, id));
      CopyInto(transmitBuffer, 0, bytes);
      assert transmitBuffer[..HEADER] == transmitBuffer[..][..HEADER] == bytes;
      CopyInto(transmitBuffer, HEADER, data);
      assert transmitBuffer[..HEADER + |data|] == transmitBuffer[..][..HEADER + |data|] == bytes + data + [];
    }
  }

  class SocketIO_Manager {
    const sock: Socket
    const encrypted: bool
    const enc: Encryption
    const dec: Decryption
    const ioBuffer: array<byte>
    const plnBuffer: array<byte>
    var frameOrder: u32
    /** The transmission id of the control frame. */
    var id: byte

    ghost predicate Valid()
      reads this, sock
    {
      && sock.Valid() && enc.Valid() && dec.Valid()
      && ioBuffer.Length == FRAME && plnBuffer.Length == FRAME + 1
      && ioBuffer != plnBuffer && enc.iv != dec.iv
      && enc.iv != ioBuffer && enc.iv != plnBuffer && dec.iv != ioBuffer && dec.iv != plnBuffer
    }

    /** The connection state before the next frame sent, and before the next frame received. */
    ghost function SendLink(): Link reads this, enc, enc.iv { if encrypted then enc.AsLink() else Plain }
    ghost function RecvLink(): Link reads this, dec, dec.iv { if encrypted then dec.AsLink() else Plain }

    /** A plain connection carries cipher objects that it never uses, where the source has null pointers. */
    constructor (sock: Socket, crypto: Crypto, encrypted: bool, cipher: Cipher)
      requires sock.Valid()
      ensures Valid() && this.sock == sock && this.encrypted == encrypted && frameOrder == 0
      ensures enc.crypto == dec.crypto == crypto && enc.cipher == dec.cipher == cipher
      ensures dec.AsLink() == BlankLink(crypto, cipher)
      ensures fresh(enc) && fresh(enc.iv) && fresh(dec) && fresh(dec.iv) && fresh(ioBuffer) && fresh(plnBuffer)
    {
      this.sock, this.encrypted, frameOrder, id := sock, encrypted, 0, 0;
      enc := new Encryption(crypto, cipher);
      dec := new Decryption(crypto, cipher);
      ioBuffer := new byte[FRAME];
      plnBuffer := new byte[FRAME + 1];
    }

    function BlockSize(): nat { if encrypted then BLOCK_SEALED else BLOCK_PLAIN }

    /** Sends `df` as one frame `f`, of which `sent` bytes reach the socket: all of them on success. A payload too long
        for a sealed frame is dropped instead, which two of the ciphers check. */
    method SendDataFrame(df: DataFrame) returns (err: int, ghost f: Frame, ghost sent: nat)
      requires Valid() && df.Valid()
      requires encrypted && enc.cipher.ChaCha20Poly1305? ==> |df.data| <= BlockSize()
      requires df.transmitBuffer !in {ioBuffer, plnBuffer, enc.iv, dec.iv}
      modifies sock`outbound, sock`stuck, sock`writeCalls, df.transmitBuffer, ioBuffer, enc.iv
      ensures Valid() && (err == 0 || err == -1)
      ensures sock.stuck == (old(sock.stuck) || err != 0)
      ensures |df.data| <= BlockSize() ==>
                && f.data == df.data && f.flags == df.flags && WellFormed(old(SendLink()), f)
                && SendLink() == old(SendLink()).Next()
                && var wire := Wire(old(SendLink()), f, df.order, df.id);
                   sent <= |wire| && sock.outbound == old(sock.outbound) + wire[..sent] && (err == 0 ==> sent == |wire|)
      ensures |df.data| > BlockSize() ==> sock.outbound == old(sock.outbound) && SendLink() == old(SendLink())
    {
      hide Kernel.Helpful, Kernel.ReadFails;
      df.Construct();
      var frameSize := HEADER + |df.data|;
      f := Frame(df.flags, df.data, []);
      if encrypted {
        ghost var bytes := PlainBytes(f, df.order, df.id);
        var transmitSize := enc.Encrypt(df.transmitBuffer, ioBuffer, frameSize);
        if |df.data| <= BlockSize() {
          ghost var plain := df.transmitBuffer[..SEALED];
          f := f.(pad := plain[frameSize..]);
          assert plain[..frameSize] == df.transmitBuffer[..frameSize] == bytes;
          assert plain == bytes + f.pad == PlainBytes(f, df.order, df.id) by {
            assert plain == plain[..frameSize] + plain[frameSize..];
          }
          assert ioBuffer[..] == Wire(old(SendLink()), f, df.order, df.id);
        }
        err, sent := SendDataBuffer(ioBuffer, transmitSize);
        assert ioBuffer[..sent] == ioBuffer[..][..sent];
      } else {
        ghost var wire := df.transmitBuffer[..frameSize];
        err, sent := SendDataBuffer(df.transmitBuffer, frameSize);
        assert df.transmitBuffer[..sent] == wire[..sent];
      }
    }

    method SendDataBuffer(buffer: array<byte>, length: nat) returns (err: int, ghost sent: nat)
      requires sock.Valid() && length <= buffer.Length
      modifies sock`outbound, sock`stuck, sock`writeCalls
      ensures sock.Valid() && (err == 0 || err == -1)
      ensures sock.stuck == (old(sock.stuck) || (err != 0 && length <= FRAME))
      ensures sent <= length && sock.outbound == old(sock.outbound) + buffer[..sent]
      ensures err == 0 ==> sent == length
    {
      if length > FRAME {
        return -1, 0;
      }
      err, sent := sock.WriteToSocket(buffer, length);
    }

    /** 0 when the frame in the plain buffer may be used, 1 otherwise. */
    method VerifyDataFrame(h: Header) returns (err: int)
      requires Valid()
      ensures (err == 0 || err == 1)
      ensures err == 0 <==> h.id == id && h.order == frameOrder && h.size <= BlockSize()
                            && Checksum(plnBuffer[HEADER..HEADER + h.size]) == h.chksum
    {
      if h.id != id {
        return 1;
      }
      if h.order != frameOrder {
        return 1;
      }
      if h.size > BlockSize() {
        return 1;
      }
      var chksum := Fletcher16(plnBuffer[HEADER..HEADER + h.size]);
      err := if chksum != h.chksum then 1 else 0;
    }

    /** `ok` and an admissible size mean that the next frame of `stream` has this header, has been taken from the
        socket, and has left its payload in the plain buffer. */
    ghost predicate RawFrameRead(link: Link, stream: seq<byte>, ok: bool, h: Header)
      requires Valid()
      reads this, sock, plnBuffer, dec, dec.iv
    {
      var raw := Deframe(link, stream);
      && (ok && h.size <= BlockSize() ==>
            && raw.Raw? && raw.h == h && raw.rest == sock.inbound
            && plnBuffer[HEADER..HEADER + h.size] == raw.data
            && RecvLink() == link.Next())
      && (!sock.faulted && !(ok && h.size <= BlockSize()) ==> raw.Incomplete?)
    }

    /** Brings the next frame into the plain buffer and decodes its header; not `ok` when reading, peeking or
        authenticating failed. */
    method ReadRawFrame() returns (ok: bool, h: Header)
      requires Valid()
      modifies ioBuffer, plnBuffer, dec.iv, sock`inbound, sock`ended, sock`faulted, sock`readCalls
      ensures Valid() && (old(sock.faulted) ==> sock.faulted)
      ensures RawFrameRead(old(RecvLink()), old(sock.inbound), ok, h)
    {
      if encrypted {
        ok, h := ReadSealedFrame();
      } else {
        ok, h := ReadPlainFrame();
      }
    }

    method ReadSealedFrame() returns (ok: bool, h: Header)
      requires Valid() && encrypted
      modifies ioBuffer, plnBuffer, dec.iv, sock`inbound, sock`ended, sock`faulted, sock`readCalls
      ensures Valid() && (old(sock.faulted) ==> sock.faulted)
      ensures RawFrameRead(old(RecvLink()), old(sock.inbound), ok, h)
    {
      hide DecodeHeader, Kernel.Helpful, Kernel.ReadFails;
      ghost var stream := sock.inbound;
      var err := sock.ReadFromSocket(ioBuffer, FRAME, false);
      if err != 0 {
        return false, Header(0, 0, 0, 0, 0);
      }
      assert ioBuffer[..] == ioBuffer[..FRAME] == stream[..FRAME];
      assert ioBuffer[..SEALED] == stream[..SEALED];
      var verified := dec.Decrypt(ioBuffer, plnBuffer);
      if !verified {
        return false, Header(0, 0, 0, 0, 0);
      }
      h := DecodeHeader(plnBuffer[..HEADER]);
      ok := true;
      ghost var plain := dec.AsLink().Mask(stream[..SEALED]);
      SliceOfPrefix(plnBuffer[..], SEALED, 0, HEADER);
      if h.size <= BLOCK_SEALED {
        SliceOfPrefix(plnBuffer[..], SEALED, HEADER, HEADER + h.size);
      }
    }

    /** The header is peeked at first. A stream that ends inside the header can make that succeed with repeated
        bytes, but then reading the frame itself fails. */
    method ReadPlainFrame() returns (ok: bool, h: Header)
      requires Valid() && !encrypted
      modifies plnBuffer, sock`inbound, sock`ended, sock`faulted, sock`readCalls
      ensures Valid() && (old(sock.faulted) ==> sock.faulted)
      ensures RawFrameRead(old(RecvLink()), old(sock.inbound), ok, h)
    {
      hide DecodeHeader, Kernel.Helpful, Kernel.ReadFails;
      ghost var stream := sock.inbound;
      var headerBytes := new byte[HEADER];
      var err := sock.ReadFromSocket(headerBytes, HEADER, true);
      if err != 0 {
        return false, Header(0, 0, 0, 0, 0);
      }
      h := DecodeHeader(headerBytes[..]);
      ok := true;
      assert HEADER <= |stream| ==> headerBytes[..] == headerBytes[..HEADER] == stream[..HEADER];
      if h.size <= BLOCK_PLAIN {
        var frameSize := HEADER + h.size;
        if frameSize > FRAME {
          return false, h;
        }
        err := sock.ReadFromSocket(plnBuffer, frameSize, false);
        ok := err == 0;
        if ok {
          SliceOfPrefix(plnBuffer[..], frameSize, HEADER, frameSize);
          assert plnBuffer[HEADER..frameSize] == stream[..frameSize][HEADER..frameSize];
          PlainSplit(stream, h);
        }
      }
    }

    static lemma PlainSplit(s: seq<byte>, h: Header)
      requires HEADER + h.size <= |s| && h.size <= BLOCK_PLAIN && h == DecodeHeader(s[..HEADER])
      ensures var raw := Deframe(Plain, s);
        && raw.Raw? && raw.h == h && raw.data == s[HEADER..HEADER + h.size] && raw.rest == s[HEADER + h.size..]
    {
      hide DecodeHeader;
      var t := s[..HEADER + h.size];
      assert t[..HEADER] == s[..HEADER] && t[HEADER..HEADER + h.size] == s[HEADER..HEADER + h.size];
    }

    /** The payload size of the next frame, EOT for an end-of-transmission frame, or -1. The payload starts
        at offset HEADER of the plain buffer. */
    method ReadDataFrame() returns (r: int)
      requires Valid()
      modifies this`frameOrder, ioBuffer, plnBuffer, dec.iv, sock`inbound, sock`ended, sock`faulted, sock`readCalls
      ensures Valid() && (old(sock.faulted) ==> sock.faulted)
      ensures r == -1 || r == EOT || 0 < r <= BlockSize()
      ensures r != -1 ==>
                var read := ReadFrame(old(RecvLink()), old(sock.inbound), old(frameOrder), id);
                && read.Accepted? && sock.inbound == read.rest
                && r == (if read.frame.data == [] then EOT else |read.frame.data|)
                && (r > 0 ==> plnBuffer[HEADER..HEADER + r] == read.frame.data)
                && frameOrder == old(frameOrder) + 1
                && RecvLink() == old(RecvLink()).Next()
      ensures r == -1 && !sock.faulted ==> ReadFrame(old(RecvLink()), old(sock.inbound), old(frameOrder), id).Rejected?
    {
      hide Deframe, Kernel.Helpful, Kernel.ReadFails;
      var ok, h := ReadRawFrame();
      if !ok {
        return -1;
      }
      var verifyErr := VerifyDataFrame(h);
      if verifyErr != 0 {
        return -1;
      }
      frameOrder := Succ(frameOrder);
      if frameOrder == 0 {
        return -1;
      }
      r := h.size;
      if h.size == 0 {
        if ByteOp(And, h.flags, FLAG_END_OF_TRANSMISSION) != 0 {
          r := EOT;
        } else {
          return -1;
        }
      }
    }

    method SendAck(error: u32) returns (err: int, ghost sent: nat)
      requires sock.Valid()
      modifies sock`outbound, sock`stuck, sock`writeCalls
      ensures sock.Valid() && (err == 0 || err == -1)
      ensures sent <= ACK_FRAME_SIZE && sock.outbound == old(sock.outbound) + AckBytes(error)[..sent]
      ensures err == 0 <==> sent == ACK_FRAME_SIZE
      ensures sock.stuck == (old(sock.stuck) || err != 0)
    {
      var ack := new byte[ACK_FRAME_SIZE];
      CopyInto(ack, 0, AckBytes(error));
      assert ack[..] == AckBytes(error);
      err, sent := sock.WriteToSocket(ack, ACK_FRAME_SIZE);
      assert ack[..sent] == ack[..][..sent];
    }

    method GetAckFromSocket() returns (error: u32)
      requires Valid()
      modifies sock`inbound, sock`ended, sock`faulted, sock`readCalls
      ensures Valid() && (old(sock.faulted) ==> sock.faulted)
      ensures error == ACK_OK ==>
                && ACK_FRAME_SIZE <= |old(sock.inbound)|
                && old(sock.inbound)[..ACK_FRAME_SIZE] == AckBytes(ACK_OK)
                && sock.inbound == old(sock.inbound)[ACK_FRAME_SIZE..]
      ensures error != ACK_OK && !sock.faulted ==>
                |old(sock.inbound)| < ACK_FRAME_SIZE || old(sock.inbound)[..ACK_FRAME_SIZE] != AckBytes(ACK_OK)
    {
      var ack := new byte[ACK_FRAME_SIZE];
      var err := sock.ReadFromSocket(ack, ACK_FRAME_SIZE, false);
      if err != 0 {
        return ACK_GENERAL_ERR;
      }
      assert ack[..] == ack[..ACK_FRAME_SIZE];
      error := ReadAck(ack[..]);
    }

    /** Takes the initial IV of the peer from the socket. */
    method SetIVFromSocket() returns (err: int)
      requires Valid()
      modifies ioBuffer, dec.iv, sock`inbound, sock`ended, sock`faulted, sock`readCalls
      ensures Valid() && (old(sock.faulted) ==> sock.faulted)
      ensures err == 0 || err == -1
      ensures var n := dec.cipher.IvSize();
        && (err == 0 ==> n <= |old(sock.inbound)| && dec.iv[..] == old(sock.inbound)[..n]
                         && sock.inbound == old(sock.inbound)[n..])
        && (err != 0 && !sock.faulted ==> |old(sock.inbound)| < n)
    {
      var n := dec.cipher.IvSize();
      err := sock.ReadFromSocket(ioBuffer, n, false);
      if err == 0 {
        dec.SetIV(ioBuffer[..n]);
      }
    }
  }
}
