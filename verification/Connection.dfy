/** One accepted connection of the server: `ConnectionManager::mainLoop` of src/xcd.hpp. */
module Connection {
  import opened Bytes
  import opened Ciphers
  import opened Frames
  import opened Handshake
  import opened Server
  import opened Sio
  import opened SocketIO

  class ConnectionManager {
    const sock: Socket
    const crypto: Crypto
    const allowed: seq<byte>
    const outDir: seq<byte>
    const keyFile: seq<byte>
    const fs: FileSystem
    var state: ProgramState
    var ctrlHeader: CtrlFrame
    var errState: int
    var done: bool
    /** The messages printed. */
    var shown: seq<seq<byte>>

    constructor (sock: Socket, crypto: Crypto, allowed: seq<byte>, outDir: seq<byte>, keyFile: seq<byte>,
        fs: FileSystem)
      ensures this.sock == sock && this.crypto == crypto && this.allowed == allowed
      ensures this.outDir == outDir && this.keyFile == keyFile && this.fs == fs
      ensures state == STATE_RCV_CTRL_FRAME && errState == 0 && !done && shown == []
    {
      this.sock, this.crypto, this.allowed, this.outDir := sock, crypto, allowed, outDir;
      this.keyFile, this.fs, shown := keyFile, fs, [];
      state, ctrlHeader, errState, done := STATE_RCV_CTRL_FRAME, CtrlFrame(PV_NONE, SV_NONE, 0, 0), 0, false;
    }

    /** An admitted control frame that announces encryption although its protocol version has no cipher. */
    ghost predicate Fatal(stream: seq<byte>) {
      && |stream| >= CTRL_FRAME_SIZE
      && var cf := DecodeCtrl(stream[..CTRL_FRAME_SIZE]);
         Admitted(cf, allowed) && PV_NONE < cf.pv < PV_LAST && !Workable(cf)
    }

    ghost function Opened(stream: seq<byte>): Session { OpenSession(crypto, allowed, keyFile, stream) }

    ghost predicate HeaderRead(stream: seq<byte>)
      reads this, sock
    {
      && CTRL_FRAME_SIZE <= |stream| && sock.inbound == stream[CTRL_FRAME_SIZE..]
      && ctrlHeader == DecodeCtrl(stream[..CTRL_FRAME_SIZE])
      && Admitted(ctrlHeader, allowed) && PV_NONE < ctrlHeader.pv < PV_LAST
    }

    method ReceiveCtrlFrame()
      requires sock.Valid() && state == STATE_RCV_CTRL_FRAME
      modifies this`state, this`ctrlHeader, sock`inbound, sock`ended, sock`faulted, sock`readCalls
      ensures sock.Valid()
      ensures if state == STATE_START_PROTOCOL_MANAGER then HeaderRead(old(sock.inbound))
              else
                && state == STATE_STOP_CONNECTION_MANAGER
                && (sock.Clean() ==> Opened(old(sock.inbound)).Refused? && !Fatal(old(sock.inbound)))
    {
      hide DecodeCtrl, Admitted, OpenAdmitted;
      ghost var stream := sock.inbound;
      var buffer := new byte[CTRL_FRAME_SIZE];
      var err := sock.ReadFromSocket(buffer, CTRL_FRAME_SIZE, false);
      state := STATE_STOP_CONNECTION_MANAGER;
      if err == 0 {
        assert buffer[..] == buffer[..CTRL_FRAME_SIZE] == stream[..CTRL_FRAME_SIZE];
        ctrlHeader := DecodeCtrl(buffer[..]);
        var valid := CtrlFrameValid(ctrlHeader, allowed);
        if valid {
          AdmittedVersion(ctrlHeader, allowed);
          state := STATE_START_PROTOCOL_MANAGER;
        }
      }
    }

    lemma NothingDone(stream: seq<byte>, files: Files, clean: bool)
      requires outDir != []
      requires clean ==> Opened(stream).Refused?
      ensures Served(Opened(stream), outDir, [], files, files, [], clean)
    {
      hide Opened;
    }

    /** With nothing to decrypt with, reading the IV calls a method of a null pointer: `crashed`. */
    method StartProtocolManager(ghost stream: seq<byte>) returns (crashed: bool)
      requires sock.Valid() && outDir != [] && HeaderRead(stream) && shown == []
      modifies this`state, this`errState, this`shown, sock, fs
      ensures sock.Valid() && old(sock.outbound) <= sock.outbound && crashed == Fatal(stream)
      ensures if crashed then fs.files == old(fs.files) && sock.outbound == old(sock.outbound)
              else state == STATE_STOP_CONNECTION_MANAGER
                   && Served(Opened(stream), outDir, sock.Since(old(sock.outbound)), old(fs.files), fs.files, shown,
                             sock.Clean())
    {
      hide DecodeCtrl, Admitted, Workable, OpenAdmitted, Served, Delivered, Carries, BlankLink, AckBytes,
           Kernel.Helpful, Kernel.ReadFails;
      crashed := !Workable(ctrlHeader);
      if crashed {
        return;
      }
      var handler := new DefaultProtocolHandler(sock, crypto, ctrlHeader, fs, outDir, keyFile);
      handler.CtrlLoop();
      shown := handler.shown;
      if handler.errState != 0 {
        errState := 1;
      }
      state := STATE_STOP_CONNECTION_MANAGER;
    }

    /** Whatever the peer sends, the connection ends with `done` set, except that it takes the server down exactly
        (if reading works) after a fatal control frame. */
    method MainLoop() returns (crashed: bool)
      requires sock.Valid() && outDir != [] && state == STATE_RCV_CTRL_FRAME && !done && shown == []
      modifies this`state, this`ctrlHeader, this`errState, this`shown, this`done, sock, fs
      ensures sock.Valid()
      ensures crashed ==> Fatal(old(sock.inbound)) && fs.files == old(fs.files) && sock.outbound == old(sock.outbound)
      ensures !crashed ==>
                && done && state == STATE_STOP_CONNECTION_MANAGER
                && Served(Opened(old(sock.inbound)), outDir, sock.Since(old(sock.outbound)), old(fs.files), fs.files,
                          shown, sock.Clean())
                && (sock.Clean() ==> !Fatal(old(sock.inbound)))
    {
      ghost var stream, files, out0 := sock.inbound, fs.files, sock.outbound;
      var connected := true;
      crashed := false;
      hide Served, Opened, Admitted, Fatal, Kernel.Helpful, Kernel.ReadFails;
      while connected
        invariant sock.Valid() && out0 <= sock.outbound && !crashed
        invariant state == STATE_STOP_CONNECTION_MANAGER ==>
                    && Served(Opened(stream), outDir, sock.Since(out0), files, fs.files, shown, sock.Clean())
                    && (sock.Clean() ==> !Fatal(stream))
        invariant state in {STATE_RCV_CTRL_FRAME, STATE_START_PROTOCOL_MANAGER, STATE_STOP_CONNECTION_MANAGER}
        invariant state != STATE_STOP_CONNECTION_MANAGER ==>
                    connected && fs.files == files && sock.outbound == out0 && shown == []
        invariant state == STATE_RCV_CTRL_FRAME ==> sock.inbound == stream
        invariant state == STATE_START_PROTOCOL_MANAGER ==> HeaderRead(stream)
        decreases connected, state == STATE_RCV_CTRL_FRAME, state == STATE_START_PROTOCOL_MANAGER
      {
        match state {
          case STATE_RCV_CTRL_FRAME =>
            ReceiveCtrlFrame();
            if state == STATE_STOP_CONNECTION_MANAGER {
              NothingDone(stream, files, sock.Clean());
            }
          case STATE_START_PROTOCOL_MANAGER =>
            crashed := StartProtocolManager(stream);
            if crashed {
              return;
            }
          case STATE_STOP_CONNECTION_MANAGER => connected := false;
          case _ =>
        }
      }
      done := true;
    }
  }

  /** Such a frame exists: protocol version 1 with the encrypted flag, to a server that takes plain connections. */
  lemma FatalOpening(cm: ConnectionManager, rest: seq<byte>)
    requires SV_PLAIN in cm.allowed
    ensures cm.Fatal(EncodeCtrl(CtrlFrame(1, SV_PLAIN, FLAG_ENCRYPTED, 1)) + rest)
  {
    var cf := CtrlFrame(1, SV_PLAIN, FLAG_ENCRYPTED, 1);
    CtrlRoundTrip(cf);
    hide EncodeCtrl, DecodeCtrl, ByteOp;
    AndNew();
    AndEncrypted();
    var s := EncodeCtrl(cf) + rest;
    assert s[..CTRL_FRAME_SIZE] == EncodeCtrl(cf);
  }

  /** Byte by byte: what takes the server down is a frame it admits, with protocol version 1 and the encrypted flag. */
  lemma FatalIff(cm: ConnectionManager, stream: seq<byte>)
    ensures cm.Fatal(stream) <==>
              && |stream| >= 5 && stream[0] == 1 && stream[1] == 0 && 1 <= stream[2] <= 4 && stream[2] in cm.allowed
              && stream[4] > 0 && Announced(stream[3])
  {
    hide DecodeCtrl, Flagged, BitAt;
    if |stream| >= CTRL_FRAME_SIZE {
      CtrlFields(stream[..CTRL_FRAME_SIZE]);
      FlagBits(stream[3]);
    }
  }

  lemma AdmittedVersion(cf: CtrlFrame, allowed: seq<byte>)
    requires Admitted(cf, allowed)
    ensures PV_NONE < cf.pv < PV_LAST
  {
  }
}
