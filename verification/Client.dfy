/** The client side of one connection: `FileIO` and `DefaultProtocolHandler` of src/xcc_protocol_handler.hpp. */
module Client {
  import opened Bytes
  import opened Ciphers
  import opened Frames
  import opened Handshake
  import opened Sio
  import opened SocketIO
  import opened Throttle
  import opened Upload

  /** The source of a transfer: a file or standard input. */
  class FileIO {
    var unread: seq<byte>
    /** `std::istream::good`: cleared by the first read that comes back short. */
    var good: bool

    constructor (content: seq<byte>)
      ensures unread == content && good
    {
      unread, good := content, true;
    }

    /** Reads at most `size` bytes; EOT once the end has been hit. */
    method ReadBytes(buffer: array<byte>, size: nat) returns (r: int)
      requires size <= buffer.Length
      modifies this, buffer
      ensures !old(good) ==> r == EOT && unread == old(unread) && !good
      ensures old(good) ==>
                && r == Min(size, |old(unread)|)
                && buffer[..r] == old(unread)[..r] && unread == old(unread)[r..]
                && good == (|old(unread)| >= size)
    {
      if !good {
        return EOT;
      }
      r := Min(size, |unread|);
      CopyInto(buffer, 0, unread[..r]);
      assert buffer[..r] == buffer[..][..r];
      good := |unread| >= size;
      unread := unread[r..];
    }
  }

  datatype TransferMode = MODE_TEXT | MODE_FILE | MODE_NONE

  datatype ProgramState =
    | STATE_NONE | STATE_GET_TYPE | STATE_RCV_INIT_ACK | STATE_RCV_FINAL_ACK | STATE_SEND_INIT_CTRL_FRAME
    | STATE_SEND_DATA | STATE_SET_CHACHA20_KEY | STATE_STOP_CLIENT

  /** What to send and how; `openable` says whether the source file can be opened. */
  datatype TransferInfo = TransferInfo(
    mode: TransferMode, sv: byte, id: byte, keyFile: seq<byte>, name: seq<byte>, source: seq<byte>, openable: bool,
    message: seq<byte>, readStdin: bool, bandwidth: nat)

  /** `out` is all of the bytes of the frames `fs`, sent on a connection that began as `link` and now is `now`. */
  ghost predicate Streamed(out: seq<byte>, now: Link, link: Link, fs: seq<Frame>, order: u32, id: byte) {
    AllWellFormed(link, fs) && out == Stream(link, fs, order, id) && now == After(link, |fs|)
  }

  /** `out` is the beginning of the bytes of the frames `fs`. */
  ghost predicate StreamedPart(out: seq<byte>, link: Link, fs: seq<Frame>, order: u32, id: byte) {
    AllWellFormed(link, fs) && out <= Stream(link, fs, order, id)
  }

  /** The frames sent are what the source has produced up to `p`. */
  ghost predicate Sent(info: TransferInfo, out: seq<byte>, now: Link, link: Link, p: Progress, fs: seq<Frame>) {
    && Streamed(out, now, link, fs, 0, info.id) && Built(link, info.name, info.source, p, fs)
    && |info.name| <= link.BlockSize()
  }

  ghost predicate SentPart(info: TransferInfo, out: seq<byte>, link: Link, p: Progress, fs: seq<Frame>) {
    StreamedPart(out, link, fs, 0, info.id) && Built(link, info.name, info.source, p, fs)
  }

  /** The text of a message: given, or what one read from standard input holds up to its first zero byte. */
  function MessageText(info: TransferInfo, block: nat): seq<byte> {
    if info.readStdin then CString(info.message[..Min(block, |info.message|)]) else info.message
  }

  /** The source can be opened and the bandwidth, if limited, admits frames. */
  predicate FileSendable(info: TransferInfo) {
    info.openable && (info.bandwidth != 0 ==> FramesPerBucket(info.bandwidth) != 0)
  }

  predicate Sendable(info: TransferInfo, block: nat) {
    if info.mode.MODE_FILE? then FileSendable(info) else MessageSendable(info, block)
  }

  predicate MessageSendable(info: TransferInfo, block: nat) {
    var text := MessageText(info, block);
    |text| <= block && (info.readStdin ==> text != [])
  }

  /** The two frames of a message, or the first of them. */
  ghost predicate MessageFrames(info: TransferInfo, link: Link, fs: seq<Frame>) {
    && AllWellFormed(link, fs) && |fs| <= 2
    && (|fs| > 0 ==> fs[0].data == MessageText(info, link.BlockSize()) && fs[0].flags == FLAG_DATA_FRAME)
    && (|fs| > 1 ==> fs[1].data == [] && fs[1].flags == FLAG_END_OF_TRANSMISSION)
  }

  /** What has to be in place before anything is sent. */
  predicate Ready(info: TransferInfo) {
    && !info.mode.MODE_NONE? && SV_NONE < info.sv < SV_LAST
    && (info.sv != SV_PLAIN ==> |info.keyFile| >= KEY_SIZE)
  }

  /** The connection on which the data frames go out. */
  function FirstLink(info: TransferInfo, crypto: Crypto, iv: seq<byte>): Link
    requires Ready(info)
  {
    SessionLink(crypto, info.sv, if info.sv == SV_PLAIN then [] else info.keyFile[..KEY_SIZE], iv)
  }

  /** The client opens with this. */
  function Opening(info: TransferInfo, iv: seq<byte>): seq<byte>
    requires SV_NONE < info.sv < SV_LAST
  {
    Hello(info.sv, info.mode.MODE_FILE?, info.id, iv)
  }

  /** `data` is the beginning, or the whole, of an honest transfer; nothing of one that cannot be sent. */
  ghost predicate Transmitted(info: TransferInfo, link: Link, data: seq<byte>, whole: bool) {
    && (whole || data != [] ==> Sendable(info, link.BlockSize()))
    && if info.mode.MODE_FILE? then
         exists p, fs :: SentPart(info, data, link, p, fs)
                         && (whole ==> p == Progress(Finished, []) && data == Stream(link, fs, 0, info.id))
       else
         exists fs :: MessageFrames(info, link, fs) && StreamedPart(data, link, fs, 1, info.id)
                      && (whole ==> |fs| == 2 && data == Stream(link, fs, 1, info.id))
  }

  /** How a client ends that has sent `out` to a server that sends `stream`. Data follows the opening only after an
      acknowledgement; there is no error only if everything was sent and two acknowledgements came; and unless reading
      or writing failed, the whole opening is sent, everything else after one acknowledgement, and there is no error
      after two. */
  ghost predicate Ends(info: TransferInfo, crypto: Crypto, iv: seq<byte>, out: seq<byte>, stream: seq<byte>,
      error: int, clean: bool)
    requires SV_NONE < info.sv < SV_LAST
  {
    var n := |Opening(info, iv)|;
    && (error == 0 || error == 1)
    && (out != [] ==>
          && Ready(info)
          && (out <= Opening(info, iv)
              || (AckBytes(ACK_OK) <= stream && Opening(info, iv) <= out
                  && Transmitted(info, FirstLink(info, crypto, iv), out[n..], false))))
    && (error == 0 ==>
          && Ready(info) && AckBytes(ACK_OK) + AckBytes(ACK_OK) <= stream && Opening(info, iv) <= out
          && Transmitted(info, FirstLink(info, crypto, iv), out[n..], true))
    && (clean && Ready(info) ==> Opening(info, iv) <= out)
    && (clean && Ready(info) && AckBytes(ACK_OK) <= stream ==>
          Sendable(info, FirstLink(info, crypto, iv).BlockSize()) ==>
          Transmitted(info, FirstLink(info, crypto, iv), out[n..], true))
    && (clean && Ready(info) && AckBytes(ACK_OK) + AckBytes(ACK_OK) <= stream ==>
          Sendable(info, FirstLink(info, crypto, iv).BlockSize()) ==> error == 0)
  }

  class DefaultProtocolHandler {
    const info: TransferInfo
    const socketIO: SocketIO_Manager
    const clock: Clock
    var mode: TransferMode
    var frameCounter: u32
    var state: ProgramState
    var error: int

    ghost predicate Valid()
      reads this, socketIO, socketIO.sock
    {
      && socketIO.Valid()
      && SV_NONE < info.sv < SV_LAST && socketIO.encrypted == (info.sv != SV_PLAIN)
      && (socketIO.encrypted ==> socketIO.enc.cipher == CipherOf(info.sv))
      && |info.name| <= socketIO.BlockSize()
    }

    constructor (info: TransferInfo, sock: Socket, crypto: Crypto, clock: Clock)
      requires sock.Valid() && SV_NONE < info.sv < SV_LAST && |info.name| <= BLOCK_SEALED
      ensures Valid() && this.info == info && this.clock == clock && socketIO.sock == sock
      ensures socketIO.enc.crypto == crypto
      ensures state == STATE_GET_TYPE && error == 0
    {
      this.info, this.clock := info, clock;
      var cipher := if info.sv == SV_PLAIN then AesGcm else CipherOf(info.sv);
      socketIO := new SocketIO_Manager(sock, crypto, info.sv != SV_PLAIN, cipher);
      mode, frameCounter, state, error := MODE_NONE, 0, STATE_GET_TYPE, 0;
    }

    ghost function Now(): Link
      reads socketIO, socketIO.enc, socketIO.enc.iv
    {
      socketIO.SendLink()
    }

    /** What has been sent since the socket had sent `out0`. */
    ghost function Since(out0: seq<byte>): seq<byte> reads socketIO.sock { socketIO.sock.Since(out0) }

    /** Sends one more frame after the frames `fs`, which began with number `order`. */
    method SendNext(df: DataFrame, ghost out0: seq<byte>, ghost link: Link, ghost fs: seq<Frame>, ghost order: u32)
      returns (err: int, ghost f: Frame)
      requires Valid() && df.Valid() && out0 <= socketIO.sock.outbound && |df.data| <= socketIO.BlockSize()
      requires Streamed(Since(out0), Now(), link, fs, order, info.id)
      requires df.transmitBuffer !in {socketIO.ioBuffer, socketIO.plnBuffer, socketIO.enc.iv, socketIO.dec.iv}
      requires df.order == OrderAfter(order, |fs|) && df.id == info.id
      modifies socketIO.sock`outbound, socketIO.sock`stuck, socketIO.sock`writeCalls, df.transmitBuffer,
               socketIO.ioBuffer, socketIO.enc.iv
      ensures Valid() && (err == 0 || err == -1) && out0 <= socketIO.sock.outbound
      ensures socketIO.sock.stuck == (old(socketIO.sock.stuck) || err != 0)
      ensures f.data == df.data && f.flags == df.flags && WellFormed(link, f)
      ensures StreamedPart(Since(out0), link, fs + [f], order, info.id)
      ensures err == 0 ==> Streamed(Since(out0), Now(), link, fs + [f], order, info.id)
    {
      hide Wire, Stream, Kernel.Helpful, Kernel.ReadFails;
      SameBlockSize(link, |fs|);
      ghost var before, now := Stream(link, fs, order, info.id), Now();
      ghost var sent;
      err, f, sent := socketIO.SendDataFrame(df);
      StreamSnoc(link, fs, f, order, info.id);
      ghost var wire := Wire(now, f, df.order, df.id);
      assert Since(out0) == before + wire[..sent];
      assert before + wire[..sent] <= before + wire;
      if err == 0 {
        AfterStep(link, |fs|);
        assert wire[..sent] == wire;
      }
    }

    /** Sends the next frame of a file transfer. */
    method Emit(df: DataFrame, ghost out0: seq<byte>, ghost link: Link, ghost p: Progress, ghost fs: seq<Frame>)
      returns (err: int, ghost f: Frame)
      requires Valid() && df.Valid() && out0 <= socketIO.sock.outbound
      requires Sent(info, Since(out0), Now(), link, p, fs) && !p.stage.Finished?
      requires df.transmitBuffer !in {socketIO.ioBuffer, socketIO.plnBuffer, socketIO.enc.iv, socketIO.dec.iv}
      requires df.flags == NextFlags(p) && df.data == NextData(link, info.name, p)
      requires df.order == OrderAfter(0, |fs|) && df.id == info.id
      modifies socketIO.sock`outbound, socketIO.sock`stuck, socketIO.sock`writeCalls, df.transmitBuffer,
               socketIO.ioBuffer, socketIO.enc.iv
      ensures Valid() && (err == 0 || err == -1) && out0 <= socketIO.sock.outbound
      ensures socketIO.sock.stuck == (old(socketIO.sock.stuck) || err != 0)
      ensures SentPart(info, Since(out0), link, Step(link, p), fs + [f])
      ensures err == 0 ==> Sent(info, Since(out0), Now(), link, Step(link, p), fs + [f])
    {
      hide StreamedPart, Stream, OrderAfter, Built, NextFlags, NextData, Step, WellFormed, Kernel.Helpful,
           Kernel.ReadFails;
      NextFits(link, info.name, p);
      SameBlockSize(link, |fs|);
      err, f := SendNext(df, out0, link, fs, 0);
      BuiltStep(link, info.name, info.source, p, fs, f);
    }

    /** Reads the next block of the source and sends it. */
    method SendBlock(file: FileIO, df: DataFrame, inBuffer: array<byte>, ghost out0: seq<byte>, ghost link: Link,
        ghost fs0: seq<Frame>)
      returns (ret: int, ghost p: Progress, ghost f: Frame)
      requires Valid() && df.Valid() && df.flags == 0 && out0 <= socketIO.sock.outbound
      requires inBuffer.Length == BLOCK_PLAIN
      requires df.transmitBuffer !in {socketIO.ioBuffer, socketIO.plnBuffer, socketIO.enc.iv, socketIO.dec.iv}
      requires inBuffer !in {socketIO.ioBuffer, socketIO.plnBuffer, socketIO.enc.iv, socketIO.dec.iv}
      requires file.good && Sent(info, Since(out0), Now(), link, Progress(Good, file.unread), fs0) && fs0 != []
      requires link.BlockSize() == socketIO.BlockSize() && frameCounter == OrderAfter(0, |fs0| - 1)
      modifies this`frameCounter, file, df, df.transmitBuffer, inBuffer, socketIO.sock`outbound, socketIO.sock`stuck,
               socketIO.sock`writeCalls, socketIO.ioBuffer, socketIO.enc.iv
      ensures Valid() && df.Valid() && df.flags == 0 && out0 <= socketIO.sock.outbound
      ensures socketIO.sock.stuck == (old(socketIO.sock.stuck) || ret != 0)
      ensures p == Progress(if file.good then Good else AtEof, file.unread)
      ensures file.good ==> |file.unread| < |old(file.unread)|
      ensures |file.unread| <= |old(file.unread)| && frameCounter == OrderAfter(0, |fs0|)
      ensures SentPart(info, Since(out0), link, p, fs0 + [f])
      ensures ret == 0 ==> Sent(info, Since(out0), Now(), link, p, fs0 + [f])
    {
      hide Sent, SentPart, OrderAfter, Kernel.Helpful, Kernel.ReadFails;
      ghost var p0 := Progress(Good, file.unread);
      var bytesRead := file.ReadBytes(inBuffer, socketIO.BlockSize());
      frameCounter := Succ(frameCounter);
      OrderSucc(0, |fs0| - 1);
      df.order, df.id, df.data := frameCounter, info.id, inBuffer[..bytesRead];
      assert df.data == NextData(link, info.name, p0);
      ret, f := Emit(df, out0, link, p0, fs0);
      p := Step(link, p0);
      df.Reset();
    }

    /** Sends the next block, which it begins at time `at`, and waits if its bucket is full. */
    method SendPaced(file: FileIO, df: DataFrame, inBuffer: array<byte>, framesPerBucket: u32, throttle: Throttle,
        ghost out0: seq<byte>, ghost link: Link, ghost fs0: seq<Frame>)
      returns (ret: int, ghost p: Progress, ghost f: Frame, ghost at: int)
      requires Valid() && df.Valid() && df.flags == 0 && out0 <= socketIO.sock.outbound
      requires inBuffer.Length == BLOCK_PLAIN
      requires df.transmitBuffer !in {socketIO.ioBuffer, socketIO.plnBuffer, socketIO.enc.iv, socketIO.dec.iv}
      requires inBuffer !in {socketIO.ioBuffer, socketIO.plnBuffer, socketIO.enc.iv, socketIO.dec.iv}
      requires file.good && Sent(info, Since(out0), Now(), link, Progress(Good, file.unread), fs0) && fs0 != []
      requires link.BlockSize() == socketIO.BlockSize() && frameCounter == OrderAfter(0, |fs0| - 1)
      requires throttle.Valid() && throttle.clock == clock
      requires framesPerBucket != 0 ==> throttle.framesPerBucket == framesPerBucket
      modifies this`frameCounter, clock, throttle, file, df, df.transmitBuffer, inBuffer, socketIO.sock`outbound,
               socketIO.sock`stuck, socketIO.sock`writeCalls, socketIO.ioBuffer, socketIO.enc.iv
      ensures Valid() && df.Valid() && df.flags == 0 && out0 <= socketIO.sock.outbound
      ensures socketIO.sock.stuck == (old(socketIO.sock.stuck) || ret != 0)
      ensures p == Progress(if file.good then Good else AtEof, file.unread)
      ensures file.good ==> |file.unread| < |old(file.unread)|
      ensures |file.unread| <= |old(file.unread)| && frameCounter == OrderAfter(0, |fs0|)
      ensures SentPart(info, Since(out0), link, p, fs0 + [f])
      ensures ret == 0 ==> Sent(info, Since(out0), Now(), link, p, fs0 + [f]) && throttle.Valid()
      ensures at >= old(clock.now)
      ensures framesPerBucket != 0 ==>
                && Paced(old(throttle.sentAt) + [at], throttle.begin, framesPerBucket)
                && (ret == 0 ==> throttle.sentAt == old(throttle.sentAt) + [at])
    {
      hide Sent, SentPart, OrderAfter, Paced, CipherOf, Stream, Kernel.Helpful, Kernel.ReadFails;
      clock.Pass();
      at := clock.now;
      throttle.BegunInTime(at);
      ret, p, f := SendBlock(file, df, inBuffer, out0, link, fs0);
      if ret == 0 {
        clock.Pass();
        if framesPerBucket != 0 {
          throttle.FrameSent(at);
        }
      }
    }

    /** Sends the blocks of the source, throttled if asked for, until a read comes back short. */
    method SendBlocks(file: FileIO, df: DataFrame, framesPerBucket: u32, ghost out0: seq<byte>, ghost link: Link,
        ghost fs0: seq<Frame>)
      returns (err: int, ghost p: Progress, ghost fs: seq<Frame>, ghost sentAt: seq<int>)
      requires Valid() && df.Valid() && df.flags == 0 && out0 <= socketIO.sock.outbound
      requires df.transmitBuffer !in {socketIO.ioBuffer, socketIO.plnBuffer, socketIO.enc.iv, socketIO.dec.iv}
      requires file.good && Sent(info, Since(out0), Now(), link, Progress(Good, file.unread), fs0) && |fs0| == 1
      requires frameCounter == 0
      requires link.BlockSize() == socketIO.BlockSize()
      modifies this`frameCounter, clock, file, df, df.transmitBuffer, socketIO.sock`outbound, socketIO.sock`stuck,
               socketIO.sock`writeCalls, socketIO.ioBuffer, socketIO.enc.iv
      ensures Valid() && df.Valid() && (err == 0 || err == 1) && out0 <= socketIO.sock.outbound
      ensures socketIO.sock.stuck == (old(socketIO.sock.stuck) || err != 0)
      ensures SentPart(info, Since(out0), link, p, fs)
      ensures err == 0 ==> p.stage.AtEof? && Sent(info, Since(out0), Now(), link, p, fs) && fs != []
                           && frameCounter == OrderAfter(0, |fs| - 1)
      // every data frame, even the one at which it gives up, is begun in its bucket or later
      ensures |sentAt| == |fs| - 1 && (framesPerBucket != 0 ==> Paced(sentAt, old(clock.now), framesPerBucket))
      ensures p.stage.Good? || p.stage.AtEof?
    {
      hide Sent, SentPart, OrderAfter, Paced, CipherOf, Stream, Kernel.Helpful, Kernel.ReadFails;
      p, fs, sentAt := Progress(Good, file.unread), fs0, [];
      OrderStep(0, 0);
      SentIsPart(info, Since(out0), Now(), link, p, fs);
      var inBuffer := new byte[BLOCK_PLAIN];
      var throttle: Throttle := new Throttle(clock, if framesPerBucket == 0 then 1 else framesPerBucket);
      while file.good
        invariant Valid() && df.Valid() && throttle.Valid() && df.flags == 0 && out0 <= socketIO.sock.outbound
        invariant Sent(info, Since(out0), Now(), link, p, fs) && SentPart(info, Since(out0), link, p, fs)
        invariant socketIO.sock.stuck == old(socketIO.sock.stuck)
        invariant p == Progress(if file.good then Good else AtEof, file.unread)
        invariant |fs| > 0 && frameCounter == OrderAfter(0, |fs| - 1)
        invariant framesPerBucket != 0 ==> sentAt == throttle.sentAt
        invariant |sentAt| == |fs| - 1
        decreases |file.unread|, file.good
      {
        var ret;
        ghost var f, at;
        ret, p, f, at := SendPaced(file, df, inBuffer, framesPerBucket, throttle, out0, link, fs);
        fs := fs + [f];
        sentAt := sentAt + [at];
        if ret != 0 {
          return 1, p, fs, sentAt;
        }
      }
      err := 0;
    }

    /** Sends the whole source; 0 on success and 1 on failure. What has gone out by then is the beginning of
        an honest transfer, and on success all of it. */
    method SendFile() returns (err: int, ghost p: Progress, ghost fs: seq<Frame>, ghost sentAt: seq<int>)
      requires Valid()
      modifies this`frameCounter, clock, socketIO.sock`outbound, socketIO.sock`stuck, socketIO.sock`writeCalls,
               socketIO.ioBuffer, socketIO.enc.iv
      ensures Valid() && (err == 0 || err == 1) && old(socketIO.sock.outbound) <= socketIO.sock.outbound
      ensures err != 0 && !socketIO.sock.stuck ==> !FileSendable(info)
      ensures err == 0 || Since(old(socketIO.sock.outbound)) != [] ==> FileSendable(info)
      ensures SentPart(info, Since(old(socketIO.sock.outbound)), old(Now()), p, fs)
      ensures err == 0 ==> p.stage.Finished? && Sent(info, Since(old(socketIO.sock.outbound)), Now(), old(Now()), p, fs)
      // `sentAt` says when each data frame was begun; with a bandwidth set, the rate is limited in every run
      ensures |sentAt| == |DataFrames(p.stage, fs)|
      ensures info.bandwidth != 0 ==>
                && Paced(sentAt, old(clock.now), FramesPerBucket(info.bandwidth))
                && RateLimited(sentAt, old(clock.now), FramesPerBucket(info.bandwidth))
    {
      hide Sent, SentPart, FramesPerBucket, Paced, RateLimited;
      p, fs, sentAt := Progress(Naming, info.source), [], [];
      NothingSent(info, Now());
      assert Since(socketIO.sock.outbound) == [];
      NothingPaced(clock.now, FramesPerBucket(info.bandwidth));
      RateBound([], clock.now, FramesPerBucket(info.bandwidth));
      var framesPerBucket: u32 := 0;
      if info.bandwidth != 0 {
        framesPerBucket := FramesPerBucket(info.bandwidth);
        if framesPerBucket == 0 {
          return 1, p, fs, [];
        }
      }
      if !info.openable {
        return 1, p, fs, [];
      }
      err, p, fs, sentAt := SendSource(framesPerBucket);
      if framesPerBucket != 0 {
        RateBound(sentAt, old(clock.now), framesPerBucket);
      }
    }

    /** Sends the name as frame 0. */
    method SendName(df: DataFrame) returns (ret: int, ghost f: Frame)
      requires Valid() && df.Valid() && df.flags == 0
      requires df.transmitBuffer !in {socketIO.ioBuffer, socketIO.plnBuffer, socketIO.enc.iv, socketIO.dec.iv}
      modifies this`frameCounter, df, df.transmitBuffer, socketIO.sock`outbound, socketIO.sock`stuck,
               socketIO.sock`writeCalls, socketIO.ioBuffer, socketIO.enc.iv
      ensures Valid() && df.Valid() && (ret == 0 || ret == -1) && old(socketIO.sock.outbound) <= socketIO.sock.outbound
      ensures frameCounter == 0 && df.flags == 0
      ensures socketIO.sock.stuck == (old(socketIO.sock.stuck) || ret != 0)
      ensures SentPart(info, Since(old(socketIO.sock.outbound)), old(Now()), Progress(Good, info.source), [f])
      ensures ret == 0 ==>
                Sent(info, Since(old(socketIO.sock.outbound)), Now(), old(Now()), Progress(Good, info.source), [f])
    {
      hide Sent, SentPart, OrderAfter, ByteOp;
      ghost var link, out0, p := Now(), socketIO.sock.outbound, Progress(Naming, info.source);
      NothingSent(info, link);
      assert Since(out0) == [];
      frameCounter := 0;
      OrZero(FLAG_DATA_FRAME);
      OrderStep(0, 0);
      df.SetFlag(FLAG_DATA_FRAME);
      df.id, df.order, df.data := info.id, frameCounter, info.name;
      ret, f := Emit(df, out0, link, p, []);
      assert [] + [f] == [f];
      df.Reset();
    }

    /** Sends the name, the blocks and the end of transmission. */
    method SendSource(framesPerBucket: u32)
      returns (err: int, ghost p: Progress, ghost fs: seq<Frame>, ghost sentAt: seq<int>)
      requires Valid()
      modifies this`frameCounter, clock, socketIO.sock`outbound, socketIO.sock`stuck, socketIO.sock`writeCalls,
               socketIO.ioBuffer, socketIO.enc.iv
      ensures Valid() && (err == 0 || err == 1) && old(socketIO.sock.outbound) <= socketIO.sock.outbound
      ensures socketIO.sock.stuck == (old(socketIO.sock.stuck) || err != 0)
      ensures SentPart(info, Since(old(socketIO.sock.outbound)), old(Now()), p, fs)
      ensures err == 0 ==> p.stage.Finished? && Sent(info, Since(old(socketIO.sock.outbound)), Now(), old(Now()), p, fs)
      ensures |sentAt| == |DataFrames(p.stage, fs)|
      ensures framesPerBucket != 0 ==> Paced(sentAt, old(clock.now), framesPerBucket)
    {
      hide Sent, SentPart, OrderAfter, Paced, Kernel.Helpful, Kernel.ReadFails;
      ghost var link, out0 := Now(), socketIO.sock.outbound;
      NothingPaced(clock.now, framesPerBucket);
      var file := new FileIO(info.source);
      var df := new DataFrame();
      ghost var f;
      err, f := SendName(df);
      p, fs, sentAt := Progress(Good, info.source), [f], [];
      if err == -1 {
        return 1, p, fs, [];
      }
      clock.Pass();
      ghost var begin := clock.now;
      err, p, fs, sentAt := SendBlocks(file, df, framesPerBucket, out0, link, fs);
      if framesPerBucket != 0 {
        PacedEarlier(sentAt, old(clock.now), begin, framesPerBucket);
      }
      if err == 0 {
        err, p, fs := SendEot(df, out0, link, p, fs);
      }
    }

    method SendEot(df: DataFrame, ghost out0: seq<byte>, ghost link: Link, ghost p0: Progress, ghost fs0: seq<Frame>)
      returns (err: int, ghost p: Progress, ghost fs: seq<Frame>)
      requires Valid() && df.Valid() && out0 <= socketIO.sock.outbound
      requires df.transmitBuffer !in {socketIO.ioBuffer, socketIO.plnBuffer, socketIO.enc.iv, socketIO.dec.iv}
      requires p0.stage.AtEof? && Sent(info, Since(out0), Now(), link, p0, fs0) && fs0 != []
      requires frameCounter == OrderAfter(0, |fs0| - 1)
      modifies this`frameCounter, df, df.transmitBuffer, socketIO.sock`outbound, socketIO.sock`stuck,
               socketIO.sock`writeCalls, socketIO.ioBuffer, socketIO.enc.iv
      ensures Valid() && (err == 0 || err == 1) && out0 <= socketIO.sock.outbound && |fs| == |fs0| + 1
      ensures p.stage.Finished?
      ensures socketIO.sock.stuck == (old(socketIO.sock.stuck) || err != 0)
      ensures SentPart(info, Since(out0), link, p, fs)
      ensures err == 0 ==> p.stage.Finished? && Sent(info, Since(out0), Now(), link, p, fs)
    {
      hide Sent, SentPart, OrderAfter, ByteOp;
      df.Reset();
      frameCounter := Succ(frameCounter);
      OrderSucc(0, |fs0| - 1);
      df.order, df.id := frameCounter, info.id;
      OrZero(FLAG_END_OF_TRANSMISSION);
      df.SetFlag(FLAG_END_OF_TRANSMISSION);
      var ret;
      ghost var f;
      ret, f := Emit(df, out0, link, p0, fs0);
      p, fs := Step(link, p0), fs0 + [f];
      err := if ret != 0 then 1 else 0;
    }

    /** The message taken from standard input. */
    method ReadMessage() returns (msg: seq<byte>)
      requires Valid()
      ensures msg == CString(info.message[..Min(socketIO.BlockSize(), |info.message|)])
    {
      var strBuffer := new byte[BLOCK_PLAIN + 1];
      var file := new FileIO(info.message);
      var r := file.ReadBytes(strBuffer, socketIO.BlockSize());
      ghost var read := strBuffer[..r];
      strBuffer[r] := 0;
      assert strBuffer[..] == read + [0] + strBuffer[r + 1..];
      CStringTerminated(read, strBuffer[r + 1..]);
      msg := CString(strBuffer[..]);
    }

    /** Sends a message as frames 1 and 2; 0 on success and 1 on failure. */
    method SendMessage() returns (err: int, ghost fs: seq<Frame>)
      requires Valid()
      modifies this`frameCounter, socketIO.sock`outbound, socketIO.sock`stuck, socketIO.sock`writeCalls,
               socketIO.ioBuffer, socketIO.enc.iv
      ensures Valid() && (err == 0 || err == 1) && old(socketIO.sock.outbound) <= socketIO.sock.outbound
      ensures err != 0 && !socketIO.sock.stuck ==> !MessageSendable(info, socketIO.BlockSize())
      ensures err == 0 || Since(old(socketIO.sock.outbound)) != [] ==> MessageSendable(info, socketIO.BlockSize())
      ensures MessageFrames(info, old(Now()), fs)
      ensures StreamedPart(Since(old(socketIO.sock.outbound)), old(Now()), fs, 1, info.id)
      ensures err == 0 ==> |fs| == 2 && Streamed(Since(old(socketIO.sock.outbound)), Now(), old(Now()), fs, 1, info.id)
      // a given message goes out as it is, unless it is too long; of standard input, one block up to its first zero
      ensures !socketIO.sock.stuck ==>
                (err == 0 <==> if info.readStdin then info.message != [] && info.message[0] != 0
                               else |info.message| <= if info.sv == 1 then 1450 else 1434)
      ensures fs != [] && !info.readStdin ==> fs[0].data == info.message
      ensures fs != [] && info.readStdin ==>
                fs[0].data == CString(info.message[..Min(if info.sv == 1 then 1450 else 1434, |info.message|)])
      ensures (fs != [] ==> fs[0].flags == 0x01) && (|fs| > 1 ==> fs[1].flags == 0x04 && fs[1].data == [])
    {
      hide Streamed, StreamedPart, CString, CipherOf;
      FirstByte(info.message, socketIO.BlockSize());
      fs := [];
      NothingStreamed(Now(), 1, info.id);
      assert Since(socketIO.sock.outbound) == [];
      var message := info.message;
      if info.readStdin {
        message := ReadMessage();
        if message == [] {
          return 1, fs;
        }
      }
      if |message| > socketIO.BlockSize() {
        return 1, fs;
      }
      frameCounter := 1;
      err, fs := SendText(message);
    }

    method SendText(message: seq<byte>) returns (err: int, ghost fs: seq<Frame>)
      requires Valid() && frameCounter == 1
      requires message == MessageText(info, socketIO.BlockSize()) && |message| <= socketIO.BlockSize()
      modifies this`frameCounter, socketIO.sock`outbound, socketIO.sock`stuck, socketIO.sock`writeCalls,
               socketIO.ioBuffer, socketIO.enc.iv
      ensures Valid() && (err == 0 || err == 1) && old(socketIO.sock.outbound) <= socketIO.sock.outbound
      ensures socketIO.sock.stuck == (old(socketIO.sock.stuck) || err != 0)
      ensures MessageFrames(info, old(Now()), fs)
      ensures StreamedPart(Since(old(socketIO.sock.outbound)), old(Now()), fs, 1, info.id)
      ensures err == 0 ==> |fs| == 2 && Streamed(Since(old(socketIO.sock.outbound)), Now(), old(Now()), fs, 1, info.id)
    {
      hide Streamed, StreamedPart, OrderAfter, ByteOp, CString, CipherOf, MessageText, MessageFrames, WellFormed,
           Kernel.Helpful, Kernel.ReadFails;
      ghost var link, out0 := Now(), socketIO.sock.outbound;
      NothingStreamed(link, 1, info.id);
      assert Since(out0) == [];
      var df := new DataFrame();
      OrZero(FLAG_DATA_FRAME);
      OrderStep(1, 0);
      df.SetFlag(FLAG_DATA_FRAME);
      df.id, df.order, df.data := info.id, frameCounter, message;
      ghost var f;
      err, f := SendNext(df, out0, link, [], 1);
      fs := [f];
      assert [] + fs == fs;
      TextFrames(info, link, f, f);
      if err != 0 {
        return 1, fs;
      }
      df.Reset();
      frameCounter := Succ(frameCounter);
      df.id, df.order := info.id, frameCounter;
      err, f := SendTextEot(df, out0, link, fs);
      TextFrames(info, link, fs[0], f);
      fs := fs + [f];
    }

    method SendTextEot(df: DataFrame, ghost out0: seq<byte>, ghost link: Link,
        ghost fs: seq<Frame>) returns (err: int, ghost f: Frame)
      requires Valid() && df.Valid() && out0 <= socketIO.sock.outbound && |fs| == 1
      requires Streamed(Since(out0), Now(), link, fs, 1, info.id)
      requires df.transmitBuffer !in {socketIO.ioBuffer, socketIO.plnBuffer, socketIO.enc.iv, socketIO.dec.iv}
      requires df.flags == 0 && df.data == [] && df.order == 2 && df.id == info.id
      modifies df, df.transmitBuffer, socketIO.sock`outbound, socketIO.sock`stuck, socketIO.sock`writeCalls,
               socketIO.ioBuffer, socketIO.enc.iv
      ensures Valid() && (err == 0 || err == 1) && out0 <= socketIO.sock.outbound
      ensures socketIO.sock.stuck == (old(socketIO.sock.stuck) || err != 0)
      ensures f.data == [] && f.flags == FLAG_END_OF_TRANSMISSION && WellFormed(link, f)
      ensures StreamedPart(Since(out0), link, fs + [f], 1, info.id)
      ensures err == 0 ==> Streamed(Since(out0), Now(), link, fs + [f], 1, info.id)
    {
      hide Streamed, StreamedPart, ByteOp;
      OrZero(FLAG_END_OF_TRANSMISSION);
      df.SetFlag(FLAG_END_OF_TRANSMISSION);
      err, f := SendNext(df, out0, link, fs, 1);
      err := if err != 0 then 1 else 0;
    }

    /** Sends the control frame and, if encrypted, the initial IV; 0 on success and -1 on failure. */
    method SendCtrlFrame() returns (err: int)
      requires Valid() && Ready(info)
      modifies socketIO.sock`outbound, socketIO.sock`stuck, socketIO.sock`writeCalls
      ensures Valid() && (err == 0 || err == -1)
      ensures old(socketIO.sock.outbound) <= socketIO.sock.outbound
      ensures socketIO.sock.stuck == (old(socketIO.sock.stuck) || err != 0)
      ensures var out := Since(old(socketIO.sock.outbound));
        out <= Opening(info, socketIO.enc.iv[..]) && (err == 0 ==> out == Opening(info, socketIO.enc.iv[..]))
    {
      hide ClientCtrl, ProVersion, EncodeCtrl, Kernel.Helpful, Kernel.ReadFails;
      var cf := BuildCtrlFrame(info.sv, ProVersion(info.sv), info.mode.MODE_FILE?, info.id);
      var bytes := EncodeCtrl(cf);
      if socketIO.encrypted {
        bytes := bytes + socketIO.enc.iv[..];
      }
      assert bytes == Opening(info, socketIO.enc.iv[..]);
      var sendBuffer := new byte[|bytes|];
      CopyInto(sendBuffer, 0, bytes);
      assert sendBuffer[..] == bytes;
      ghost var sent;
      err, sent := socketIO.sock.WriteToSocket(sendBuffer, |bytes|);
      assert sendBuffer[..|bytes|] == bytes && (err == 0 ==> bytes[..sent] == bytes);
    }

    // ---------- the control loop ----------

    function Rank(state: ProgramState): nat {
      match state
      case STATE_GET_TYPE => 6
      case STATE_SET_CHACHA20_KEY => 5
      case STATE_SEND_INIT_CTRL_FRAME => 4
      case STATE_RCV_INIT_ACK => 3
      case STATE_SEND_DATA => 2
      case STATE_RCV_FINAL_ACK => 1
      case _ => 0
    }

    /** What holds between two turns of the control loop; in particular, no state that its switch ignores is entered. */
    ghost predicate At(out0: seq<byte>, stream: seq<byte>, iv: seq<byte>)
      requires SV_NONE < info.sv < SV_LAST
      reads this, socketIO, socketIO.sock, socketIO.enc, socketIO.enc.iv
    {
      && out0 <= socketIO.sock.outbound
      && (Rank(state) > 0 ==> error == 0)
      && (6 > Rank(state) > 0 ==> mode == info.mode && mode != MODE_NONE)
      && (5 > Rank(state) > 0 ==> Ready(info))
      && (5 > Rank(state) > 1 ==> Now() == FirstLink(info, socketIO.enc.crypto, iv))
      && (Rank(state) > 3 ==> socketIO.enc.iv[..] == iv && Since(out0) == [])
      && (Rank(state) > 2 ==> socketIO.sock.inbound == stream)
      && (0 < Rank(state) < 3 ==> AckBytes(ACK_OK) <= stream && socketIO.sock.inbound == stream[ACK_FRAME_SIZE..])
      && match state
         case STATE_GET_TYPE => true
         case STATE_SET_CHACHA20_KEY => socketIO.encrypted
         case STATE_SEND_INIT_CTRL_FRAME => true
         case STATE_RCV_INIT_ACK => Since(out0) == Opening(info, iv)
         case STATE_SEND_DATA => Since(out0) == Opening(info, iv)
         case STATE_RCV_FINAL_ACK =>
           && Opening(info, iv) <= Since(out0)
           && Transmitted(info, FirstLink(info, socketIO.enc.crypto, iv), Since(out0)[|Opening(info, iv)|..], true)
         case STATE_STOP_CLIENT =>
           Ends(info, socketIO.enc.crypto, iv, Since(out0), stream, error, socketIO.sock.Clean())
         case _ => false
    }

    method SetType(ghost out0: seq<byte>, ghost stream: seq<byte>, ghost iv: seq<byte>)
      requires Valid() && state == STATE_GET_TYPE && At(out0, stream, iv)
      modifies this`mode, this`state, this`error
      ensures Valid() && At(out0, stream, iv) && Rank(state) < Rank(old(state))
    {
      hide CipherOf, Kernel.Helpful, Kernel.ReadFails;
      mode := info.mode;
      if mode == MODE_NONE {
        error := 1;
        state := STATE_STOP_CLIENT;
      } else if socketIO.encrypted {
        state := STATE_SET_CHACHA20_KEY;
      } else {
        state := STATE_SEND_INIT_CTRL_FRAME;
      }
    }

    method SetKey(ghost out0: seq<byte>, ghost stream: seq<byte>, ghost iv: seq<byte>)
      requires Valid() && state == STATE_SET_CHACHA20_KEY && At(out0, stream, iv)
      modifies this`state, this`error, socketIO.enc`sessionKey
      ensures Valid() && At(out0, stream, iv) && Rank(state) < Rank(old(state))
    {
      hide CipherOf;
      var err := socketIO.enc.ReadKey(info.keyFile);
      if err != 0 {
        error := 1;
        state := STATE_STOP_CLIENT;
      } else {
        state := STATE_SEND_INIT_CTRL_FRAME;
      }
    }

    method SendInitCtrlFrame(ghost out0: seq<byte>, ghost stream: seq<byte>, ghost iv: seq<byte>)
      requires Valid() && state == STATE_SEND_INIT_CTRL_FRAME && At(out0, stream, iv)
      modifies this`state, this`error, socketIO.sock`outbound, socketIO.sock`stuck, socketIO.sock`writeCalls
      ensures Valid() && At(out0, stream, iv) && Rank(state) < Rank(old(state))
    {
      hide CipherOf, Hello, Ready, FirstLink;
      var err := SendCtrlFrame();
      if err != 0 {
        error := 1;
        state := STATE_STOP_CLIENT;
      } else {
        state := STATE_RCV_INIT_ACK;
      }
    }

    method ReceiveInitAck(ghost out0: seq<byte>, ghost stream: seq<byte>, ghost iv: seq<byte>)
      requires Valid() && state == STATE_RCV_INIT_ACK && At(out0, stream, iv)
      modifies this`state, this`error, socketIO.sock`inbound, socketIO.sock`ended, socketIO.sock`faulted,
               socketIO.sock`readCalls
      ensures Valid() && At(out0, stream, iv) && Rank(state) < Rank(old(state))
    {
      hide CipherOf, Hello, Ready, FirstLink, AckBytes;
      var ackErr := socketIO.GetAckFromSocket();
      if ackErr != ACK_OK {
        error := 1;
        state := STATE_STOP_CLIENT;
      } else {
        state := STATE_SEND_DATA;
      }
    }

    /** Sends the file or the message; 0 on success and 1 on failure. */
    method Transmit() returns (err: int)
      requires Valid() && mode == info.mode != MODE_NONE
      modifies this`frameCounter, clock, socketIO.sock`outbound, socketIO.sock`stuck, socketIO.sock`writeCalls,
               socketIO.ioBuffer, socketIO.enc.iv
      ensures Valid() && old(socketIO.sock.outbound) <= socketIO.sock.outbound
      ensures Transmitted(info, old(Now()), Since(old(socketIO.sock.outbound)), err == 0)
      ensures err != 0 && !socketIO.sock.stuck ==> !Sendable(info, socketIO.BlockSize())
    {
      hide CipherOf, MessageFrames, Stream, Built, CString, MessageText;
      ghost var link, out0, fs := Now(), socketIO.sock.outbound, [];
      if mode == MODE_FILE {
        ghost var p;
        ghost var sentAt;
        err, p, fs, sentAt := SendFile();
        if err == 0 {
          FinishedUnread(link, info.name, info.source, p, fs);
        }
      } else {
        err, fs := SendMessage();
      }
    }

    method SendData(ghost out0: seq<byte>, ghost stream: seq<byte>, ghost iv: seq<byte>)
      requires Valid() && state == STATE_SEND_DATA && At(out0, stream, iv)
      modifies this`state, this`error, this`frameCounter, clock, socketIO.sock`outbound, socketIO.sock`stuck,
               socketIO.sock`writeCalls, socketIO.ioBuffer, socketIO.enc.iv
      ensures Valid() && At(out0, stream, iv) && Rank(state) < Rank(old(state))
    {
      hide CipherOf, Hello, Ready, FirstLink, AckBytes, Transmitted;
      ghost var greeted, hello := socketIO.sock.outbound, Opening(info, iv);
      var err := Transmit();
      assert Since(out0) == hello + Since(greeted) && Since(out0)[|hello|..] == Since(greeted);
      if err != 0 {
        error := 1;
        state := STATE_STOP_CLIENT;
      } else {
        state := STATE_RCV_FINAL_ACK;
      }
    }

    method ReceiveFinalAck(ghost out0: seq<byte>, ghost stream: seq<byte>, ghost iv: seq<byte>)
      requires Valid() && state == STATE_RCV_FINAL_ACK && At(out0, stream, iv)
      modifies this`state, this`error, socketIO.sock`inbound, socketIO.sock`ended, socketIO.sock`faulted,
               socketIO.sock`readCalls
      ensures Valid() && At(out0, stream, iv) && state == STATE_STOP_CLIENT
    {
      hide CipherOf, Hello, Ready, FirstLink, AckBytes, Transmitted, Kernel.Helpful, Kernel.ReadFails;
      WholeIsPart(info, FirstLink(info, socketIO.enc.crypto, iv), Since(out0)[|Opening(info, iv)|..]);
      var ackErr := socketIO.GetAckFromSocket();
      ghost var n := ACK_FRAME_SIZE;
      assert ackErr == ACK_OK ==> stream[n..][..n] == stream[n..2 * n];
      if ackErr != ACK_OK {
        error := 1;
      }
      state := STATE_STOP_CLIENT;
    }

    /** Runs the transfer to its end; the loop always stops. */
    method CtrlLoop()
      requires Valid() && state == STATE_GET_TYPE && error == 0
      modifies this`mode, this`state, this`error, this`frameCounter, clock, socketIO.sock, socketIO.ioBuffer,
               socketIO.enc, socketIO.enc.iv
      ensures Valid() && state == STATE_STOP_CLIENT && old(socketIO.sock.outbound) <= socketIO.sock.outbound
      ensures Ends(info, socketIO.enc.crypto, old(socketIO.enc.iv[..]),
                   Since(old(socketIO.sock.outbound)), old(socketIO.sock.inbound), error, socketIO.sock.Clean())
    {
      ghost var stream, out0, iv := socketIO.sock.inbound, socketIO.sock.outbound, socketIO.enc.iv[..];
      var running := true;
      hide CipherOf, Hello, Ready, FirstLink, AckBytes, Ends, Transmitted;
      while running
        invariant Valid() && At(out0, stream, iv)
        invariant !running ==> state == STATE_STOP_CLIENT
        decreases running, Rank(state)
      {
        match state {
          case STATE_GET_TYPE => SetType(out0, stream, iv);
          case STATE_SET_CHACHA20_KEY => SetKey(out0, stream, iv);
          case STATE_SEND_INIT_CTRL_FRAME => SendInitCtrlFrame(out0, stream, iv);
          case STATE_RCV_INIT_ACK => ReceiveInitAck(out0, stream, iv);
          case STATE_SEND_DATA => SendData(out0, stream, iv);
          case STATE_RCV_FINAL_ACK =>
            ReceiveFinalAck(out0, stream, iv);
            running := false;
          case STATE_STOP_CLIENT => running := false;
          case _ =>
        }
      }
    }
  }

  lemma FirstByte(message: seq<byte>, block: nat)
    requires block > 0
    ensures CString(message[..Min(block, |message|)]) != [] <==> message != [] && message[0] != 0
  {
  }

  lemma WholeIsPart(info: TransferInfo, link: Link, data: seq<byte>)
    requires Transmitted(info, link, data, true)
    ensures Transmitted(info, link, data, false)
  {
  }

  lemma TextFrames(info: TransferInfo, link: Link, f: Frame, g: Frame)
    requires WellFormed(link, f) && f.data == MessageText(info, link.BlockSize()) && f.flags == FLAG_DATA_FRAME
    ensures MessageFrames(info, link, [f])
    ensures WellFormed(link, g) && g.data == [] && g.flags == FLAG_END_OF_TRANSMISSION ==>
              MessageFrames(info, link, [f] + [g])
  {
  }

  lemma NothingStreamed(link: Link, order: u32, id: byte)
    ensures Streamed([], link, link, [], order, id) && StreamedPart([], link, [], order, id)
  {
  }

  lemma NothingSent(info: TransferInfo, link: Link)
    requires |info.name| <= link.BlockSize()
    ensures Sent(info, [], link, link, Progress(Naming, info.source), [])
    ensures SentPart(info, [], link, Progress(Naming, info.source), [])
  {
  }

  lemma SentIsPart(info: TransferInfo, out: seq<byte>, now: Link, link: Link, p: Progress, fs: seq<Frame>)
    requires Sent(info, out, now, link, p, fs)
    ensures SentPart(info, out, link, p, fs)
  {
    hide Built, Stream;
  }

}
