/** The server side of one connection: `DefaultProtocolHandler` of src/xcd_protocol_handler.hpp. */
module Server {
  import opened Bytes
  import opened Ciphers
  import opened Frames
  import opened Handshake
  import opened Reception
  import opened Sio
  import opened SocketIO

  datatype ProgramState =
    | STATE_WAIT_FOR_CONNECTION | STATE_START_CONN_MANAGER | STATE_START_PROTOCOL_MANAGER
    | STATE_SELECT_PROTOCOL_MANAGER | STATE_STOP_PROTOCOL_MANAGER | STATE_STOP_CONNECTION_MANAGER
    | STATE_ACCEPT_CONNECTION | STATE_GET_TYPE | STATE_RCV_CTRL_FRAME | STATE_RCV_DATA | STATE_RCV_DATA_FRAME
    | STATE_RCV_FILENAME | STATE_RCV_FILE_DATA | STATE_FINAL_ACK | STATE_READ_IV | STATE_CHACHA20_GET_IV
    | STATE_CHACHA20_READ_KEY_FILE | STATE_READ_KEY_FILE | STATE_CM_CLOSE_CONN | STATE_PM_CLOSE_CONN
    | STATE_EOT | STATE_STOP_SERVER

  const SLASH: byte := 47

  /** Where a file called `name` goes. */
  function TargetPath(outDir: seq<byte>, name: seq<byte>): seq<byte>
    requires outDir != []
  {
    outDir + (if outDir[|outDir| - 1] != SLASH then [SLASH] else []) + CString(name)
  }

  /** `path` is the directory, a slash if it does not end in one, and the name up to its first zero. */
  ghost predicate LeadsTo(path: seq<byte>, outDir: seq<byte>, name: seq<byte>)
    requires outDir != []
  {
    var stop := |path| - |CString(name)|;
    && stop == (if outDir[|outDir| - 1] == 47 then |outDir| else |outDir| + 1)
    && outDir <= path && (stop > |outDir| ==> path[|outDir|] == 47)
    && path[stop..] == CString(name)
  }

  lemma TargetPathIff(path: seq<byte>, outDir: seq<byte>, name: seq<byte>)
    requires outDir != []
    ensures path == TargetPath(outDir, name) <==> LeadsTo(path, outDir, name)
  {
    hide CString;
    var stop := |path| - |CString(name)|;
    if LeadsTo(path, outDir, name) {
      assert path == path[..|outDir|] + path[|outDir|..stop] + path[stop..];
    }
  }

  /** Two names lead to the same path exactly if they agree up to their first zeros. */
  lemma SamePathIff(path: seq<byte>, outDir: seq<byte>, a: seq<byte>, b: seq<byte>)
    requires outDir != [] && LeadsTo(path, outDir, a)
    ensures LeadsTo(path, outDir, b) <==> CString(a) == CString(b)
  {
    hide CString;
    TargetPathIff(path, outDir, a);
    TargetPathIff(path, outDir, b);
    var start := outDir + if outDir[|outDir| - 1] != SLASH then [SLASH] else [];
    assert path == start + CString(a);
    assert TargetPath(outDir, b)[|start|..] == CString(b) && path[|start|..] == CString(a);
  }

  type Files = map<seq<byte>, seq<byte>>

  // ---------- what a session is for ----------

  /** Whether a session carries a complete file for a free path, or a message. */
  ghost predicate Carries(session: Session, outDir: seq<byte>, files: Files)
    requires outDir != []
  {
    && session.Open?
    && if session.file then
         var out := Reception.RecvFile(session.link, session.rest, session.id);
         out.Stored? && TargetPath(outDir, out.name) !in files
       else !Reception.RecvMessage(session.link, session.rest, session.id).NoFrame?
  }

  /** The files once a session has delivered what it carries. */
  ghost function FilesAfter(session: Session, outDir: seq<byte>, files: Files): Files
    requires outDir != []
  {
    if session.Open? && session.file then
      match Reception.RecvFile(session.link, session.rest, session.id)
      case Stored(name, content, _) => files[TargetPath(outDir, name) := content]
      case _ => files
    else files
  }

  /** What has been printed once a session has delivered what it carries: the text of the message, if any. */
  ghost predicate Shows(session: Session, shown: seq<seq<byte>>) {
    if session.Open? && !session.file then
      var text := Reception.RecvMessage(session.link, session.rest, session.id);
      |shown| == 1 && (text.Text? ==> shown[0] == text.shown)
    else shown == []
  }

  /** The server's world has changed from `before` to `after` and `shown` as the session demands. */
  ghost predicate Delivered(session: Session, outDir: seq<byte>, before: Files, after: Files, shown: seq<seq<byte>>)
    requires outDir != []
  {
    Carries(session, outDir, before) && after == FilesAfter(session, outDir, before) && Shows(session, shown)
  }

  /** What holds once a connection is over: files change and messages are printed only by delivery; any byte of a first
      acknowledgement means that a session is open, any byte of a second one that it was delivered; and unless reading
      or writing failed, an open session is acknowledged, and whatever can be delivered is, and twice acknowledged. */
  ghost predicate Served(session: Session, outDir: seq<byte>, sent: seq<byte>, before: Files, after: Files,
      shown: seq<seq<byte>>, clean: bool)
    requires outDir != []
  {
    var delivered := Delivered(session, outDir, before, after, shown);
    && (delivered || (after == before && shown == []))
    && (sent != [] ==> session.Open?)
    && (|sent| > ACK_FRAME_SIZE ==> delivered)
    && (clean && session.Open? ==> AckBytes(ACK_OK) <= sent)
    && (clean && Carries(session, outDir, before) ==> delivered && sent == AckBytes(ACK_OK) + AckBytes(ACK_OK))
  }

  class FileSystem {
    var files: Files
  }

  class DefaultProtocolHandler {
    const socketIO: SocketIO_Manager
    const fs: FileSystem
    const crypto: Crypto
    const outDir: seq<byte>
    const keyFile: seq<byte>
    const ctrl: CtrlFrame
    const encrypted: bool
    var binary: bool
    var state: ProgramState
    var errState: int
    /** The messages printed. */
    var shown: seq<seq<byte>>

    ghost predicate Valid()
      reads this, socketIO, socketIO.sock
    {
      && socketIO.Valid()
      && outDir != []
      && PV_NONE < ctrl.pv < PV_LAST && encrypted == Flagged(ctrl.flags, FLAG_ENCRYPTED)
      && socketIO.encrypted == (SecVersion(ctrl.pv) != SV_PLAIN) && (encrypted ==> socketIO.encrypted)
      && socketIO.id == ctrl.id && socketIO.dec.crypto == crypto
      && (socketIO.encrypted ==> socketIO.dec.cipher == CipherOf(SecVersion(ctrl.pv)))
    }

    constructor (sock: Socket, crypto: Crypto, cf: CtrlFrame, fs: FileSystem, outDir: seq<byte>, keyFile: seq<byte>)
      requires sock.Valid() && outDir != [] && PV_NONE < cf.pv < PV_LAST && Workable(cf)
      ensures Valid() && state == STATE_GET_TYPE && errState == 0 && socketIO.frameOrder == 0 && shown == []
      ensures this.fs == fs && this.crypto == crypto && this.outDir == outDir && this.keyFile == keyFile && ctrl == cf
      ensures socketIO.sock == sock && socketIO.dec.AsLink() == BlankLink(crypto, socketIO.dec.cipher)
      ensures fresh(socketIO) && fresh(socketIO.dec) && fresh(socketIO.dec.iv)
      ensures fresh(socketIO.ioBuffer) && fresh(socketIO.plnBuffer)
    {
      hide Flagged;
      var sv := SecVersion(cf.pv);
      this.fs, this.crypto, this.outDir, this.keyFile, ctrl := fs, crypto, outDir, keyFile, cf;
      encrypted := Flagged(cf.flags, FLAG_ENCRYPTED);
      binary := false;
      socketIO := new SocketIO_Manager(sock, crypto, sv != SV_PLAIN, if sv == SV_PLAIN then AesGcm else CipherOf(sv));
      state, errState, shown := STATE_GET_TYPE, 0, [];
      new;
      socketIO.id := cf.id;
    }

    ghost function Now(): Link
      reads socketIO, socketIO.dec, socketIO.dec.iv
    {
      socketIO.RecvLink()
    }

    /** 0 when frame number 1 has been taken and its text printed. */
    method RecvMessage() returns (err: int)
      requires Valid() && state == STATE_RCV_DATA
      modifies this`state, this`shown, socketIO`frameOrder, socketIO.ioBuffer, socketIO.plnBuffer, socketIO.dec.iv,
               socketIO.sock`inbound, socketIO.sock`ended, socketIO.sock`faulted, socketIO.sock`readCalls
      ensures Valid() && (old(socketIO.sock.faulted) ==> socketIO.sock.faulted)
      ensures err == 0 || err == 1
      ensures var text := Reception.RecvMessage(old(Now()), old(socketIO.sock.inbound), socketIO.id);
        && (err == 0 ==> !text.NoFrame? && |shown| == |old(shown)| + 1 && shown[..|old(shown)|] == old(shown)
                         && (text.Text? ==> shown[|old(shown)|] == text.shown))
        && (err == 1 && !socketIO.sock.faulted ==> text.NoFrame?)
      ensures err == 1 ==> shown == old(shown)
    {
      hide ReadFrame, CString, Flagged, Workable, CipherOf, SecVersion;
      var receiving := true;
      while receiving
        invariant Valid() && (old(socketIO.sock.faulted) ==> socketIO.sock.faulted)
        invariant receiving ==> state == STATE_RCV_DATA || state == STATE_RCV_DATA_FRAME
        invariant receiving ==> Now() == old(Now()) && shown == old(shown)
        invariant receiving ==> socketIO.sock.inbound == old(socketIO.sock.inbound)
        invariant !receiving ==>
                    var text := Reception.RecvMessage(old(Now()), old(socketIO.sock.inbound), socketIO.id);
                    && !text.NoFrame? && |shown| == |old(shown)| + 1 && shown[..|old(shown)|] == old(shown)
                    && (text.Text? ==> shown[|old(shown)|] == text.shown)
        decreases receiving, state != STATE_RCV_DATA_FRAME
      {
        match state {
          case STATE_RCV_DATA =>
            state := STATE_RCV_DATA_FRAME;
          case STATE_RCV_DATA_FRAME =>
            socketIO.frameOrder := 1;
            var received := socketIO.ReadDataFrame();
            if received == -1 {
              return 1;
            }
            var msg := TerminatedText(socketIO.plnBuffer, received);
            shown := shown + [msg];
            receiving := false;
          case _ =>
        }
      }
      err := 0;
    }

    /** Puts a terminating zero behind the payload and returns what the buffer then shows as text. The zero lies
        inside the buffer even for a full frame and, where it hits the header, for an end-of-transmission frame. */
    method TerminatedText(pln: array<byte>, received: int) returns (msg: seq<byte>)
      requires pln.Length == FRAME + 1 && EOT <= received <= BLOCK_PLAIN
      modifies pln
      ensures received >= 0 ==> msg == CString(old(pln[HEADER..HEADER + received]))
    {
      ghost var before := pln[..];
      pln[HEADER + received] := 0;
      msg := CString(pln[HEADER..]);
      if received >= 0 {
        var n := HEADER + received;
        assert pln[HEADER..] == before[HEADER..n] + [0] + before[n + 1..];
        CStringTerminated(before[HEADER..n], before[n + 1..]);
      }
    }

    /** The length of the name copied to the front of `filename`, or -1. */
    method RecvFilename(filename: array<byte>) returns (r: int)
      requires Valid() && filename.Length == MAX_FILENAME_LENGTH + 1
      requires filename !in {socketIO.ioBuffer, socketIO.plnBuffer, socketIO.dec.iv, socketIO.enc.iv}
      requires socketIO.frameOrder == 0
      modifies filename, socketIO`frameOrder, socketIO.ioBuffer, socketIO.plnBuffer, socketIO.dec.iv,
               socketIO.sock`inbound, socketIO.sock`ended, socketIO.sock`faulted, socketIO.sock`readCalls
      ensures Valid() && (old(socketIO.sock.faulted) ==> socketIO.sock.faulted)
      ensures r == -1 || 0 < r <= MAX_FILENAME_LENGTH
      ensures var read := ReadFrame(old(Now()), old(socketIO.sock.inbound), 0, socketIO.id);
        && (r > 0 ==> read.Accepted? && |read.frame.data| == r && filename[..] == read.frame.data + old(filename[r..])
                      && socketIO.sock.inbound == read.rest && Now() == old(Now()).Next() && socketIO.frameOrder == 1)
        && (r == -1 && !socketIO.sock.faulted ==> read.Accepted? ==> !(0 < |read.frame.data| <= MAX_FILENAME_LENGTH))
    {
      hide ReadFrame, Flagged, Workable, CipherOf, SecVersion;
      r := -1;
      var recvVal := socketIO.ReadDataFrame();
      if recvVal > MAX_FILENAME_LENGTH {
        return;
      }
      if recvVal > 0 {
        if socketIO.frameOrder - 1 == 0 {
          CopyInto(filename, 0, socketIO.plnBuffer[HEADER..HEADER + recvVal]);
          r := recvVal;
        }
      }
    }

    /** Appends data frames to the file at `path` until the transmission ends or a frame is bad. */
    method RecvBlocks(path: seq<byte>) returns (recvValue: int)
      requires Valid() && socketIO.frameOrder > 0 && path in fs.files && fs.files[path] == []
      modifies fs, socketIO`frameOrder, socketIO.ioBuffer, socketIO.plnBuffer, socketIO.dec.iv, socketIO.sock`inbound,
               socketIO.sock`ended, socketIO.sock`faulted, socketIO.sock`readCalls
      ensures Valid() && (old(socketIO.sock.faulted) ==> socketIO.sock.faulted)
      ensures path in fs.files && fs.files == old(fs.files)[path := fs.files[path]]
      ensures recvValue == -1 || recvValue == EOT
      ensures var body := RecvBody(old(Now()), old(socketIO.sock.inbound), old(socketIO.frameOrder), socketIO.id);
        && (recvValue == EOT ==> body == Whole(fs.files[path], socketIO.sock.inbound))
        && (recvValue == -1 && !socketIO.sock.faulted ==> body.Cut?)
    {
      hide ReadFrame, IsEot, RecvBody, Flagged, Workable, CipherOf, SecVersion, Kernel.Helpful, Kernel.ReadFails;
      ghost var body := RecvBody(Now(), socketIO.sock.inbound, socketIO.frameOrder, socketIO.id);
      body.AfterNothing();
      recvValue := 0;
      var reading := true;
      while reading
        invariant Valid() && (old(socketIO.sock.faulted) ==> socketIO.sock.faulted)
        invariant path in fs.files && fs.files == old(fs.files)[path := fs.files[path]]
        invariant reading ==> socketIO.frameOrder > 0
        invariant reading ==>
                    body == RecvBody(Now(), socketIO.sock.inbound, socketIO.frameOrder, socketIO.id)
                            .After(fs.files[path])
        invariant !reading ==> recvValue == -1 || recvValue == EOT
        invariant !reading && recvValue == EOT ==> body == Whole(fs.files[path], socketIO.sock.inbound)
        invariant !reading && recvValue == -1 && !socketIO.sock.faulted ==> body.Cut?
        decreases reading, ROLLOVER - socketIO.frameOrder
      {
        BodyStep(Now(), socketIO.sock.inbound, socketIO.frameOrder, socketIO.id, fs.files[path]);
        recvValue := socketIO.ReadDataFrame();
        if recvValue == -1 {
          reading := false;
        } else {
          reading := recvValue != EOT;
        }
        if reading {
          fs.files := fs.files[path := fs.files[path] + socketIO.plnBuffer[HEADER..HEADER + recvValue]];
        }
      }
    }

    /** Receives one file; 0 on success and 1 on failure. */
    method RecvFile() returns (err: int)
      requires Valid() && socketIO.frameOrder == 0
      modifies fs, socketIO`frameOrder, socketIO.ioBuffer, socketIO.plnBuffer, socketIO.dec.iv, socketIO.sock`inbound,
               socketIO.sock`ended, socketIO.sock`faulted, socketIO.sock`readCalls
      ensures Valid() && (old(socketIO.sock.faulted) ==> socketIO.sock.faulted)
      ensures err == 0 || err == 1
      // success: exactly the transmitted content appears, under a path that was free
      ensures err == 0 ==>
                var out := Reception.RecvFile(old(Now()), old(socketIO.sock.inbound), socketIO.id);
                && out.Stored? && TargetPath(outDir, out.name) !in old(fs.files)
                && fs.files == old(fs.files)[TargetPath(outDir, out.name) := out.content]
                && socketIO.sock.inbound == out.rest
                && exists path :: LeadsTo(path, outDir, out.name) && path !in old(fs.files)
                                  && fs.files == old(fs.files)[path := out.content]
      // failure: nothing is left behind
      ensures err == 1 ==> fs.files == old(fs.files)
      // without faults, failure means that the bytes are not a transfer or the path is taken
      ensures err == 1 && !socketIO.sock.faulted ==>
                var out := Reception.RecvFile(old(Now()), old(socketIO.sock.inbound), socketIO.id);
                out.Stored? ==> TargetPath(outDir, out.name) in old(fs.files)
    {
      hide ReadFrame, IsEot, RecvBody, CString, TargetPath, Flagged, Workable, CipherOf, SecVersion, Kernel.Helpful,
           Kernel.ReadFails;
      var filename := new byte[MAX_FILENAME_LENGTH + 1](_ => 0);
      var length := RecvFilename(filename);
      if length < 0 {
        return 1;
      }
      ghost var name := ReadFrame(old(Now()), old(socketIO.sock.inbound), 0, socketIO.id).frame.data;
      var path := TargetPath(outDir, filename[..]);
      NameTerminated(outDir, name, filename[..]);
      if path in fs.files {
        return 1;
      }
      err := StoreBlocks(path);
      TargetPathIff(path, outDir, name);
    }

    /** Creates the file at `path` and receives its content, or removes it again. */
    method StoreBlocks(path: seq<byte>) returns (err: int)
      requires Valid() && socketIO.frameOrder > 0 && path !in fs.files
      modifies fs, socketIO`frameOrder, socketIO.ioBuffer, socketIO.plnBuffer, socketIO.dec.iv, socketIO.sock`inbound,
               socketIO.sock`ended, socketIO.sock`faulted, socketIO.sock`readCalls
      ensures Valid() && (old(socketIO.sock.faulted) ==> socketIO.sock.faulted)
      ensures err == 0 || err == 1
      ensures var body := RecvBody(old(Now()), old(socketIO.sock.inbound), old(socketIO.frameOrder), socketIO.id);
        && (err == 0 ==>
              && body.Whole? && fs.files == old(fs.files)[path := body.content]
              && socketIO.sock.inbound == body.rest)
        && (err == 1 ==> fs.files == old(fs.files))
        && (err == 1 && !socketIO.sock.faulted ==> body.Cut?)
    {
      hide RecvBody, CipherOf, SecVersion, Kernel.Helpful, Kernel.ReadFails;
      fs.files := fs.files[path := []];
      var recvValue := RecvBlocks(path);
      if recvValue == EOT {
        err := 0;
      } else {
        fs.files := fs.files - {path};
        err := 1;
      }
    }

    lemma NameTerminated(outDir: seq<byte>, name: seq<byte>, filename: seq<byte>)
      requires outDir != []
      requires |name| < |filename| && name <= filename && forall i :: |name| <= i < |filename| ==> filename[i] == 0
      ensures TargetPath(outDir, filename) == TargetPath(outDir, name)
    {
      var tail := filename[|name| + 1..];
      assert filename == name + [0] + tail;
      CStringTerminated(name, tail);
    }

    // ---------- the control loop ----------

    function Rank(state: ProgramState): nat {
      match state
      case STATE_GET_TYPE => 6
      case STATE_READ_IV => 5
      case STATE_READ_KEY_FILE => 4
      case STATE_ACCEPT_CONNECTION => 3
      case STATE_RCV_DATA => 2
      case STATE_FINAL_ACK => 1
      case _ => 0
    }

    /** What the bytes after the control frame open. */
    ghost function Opened(stream: seq<byte>): Session
      requires PV_NONE < ctrl.pv < PV_LAST
    {
      OpenAdmitted(crypto, keyFile, ctrl, stream)
    }

    lemma OpenedIs(stream: seq<byte>)
      requires PV_NONE < ctrl.pv < PV_LAST && encrypted == Flagged(ctrl.flags, FLAG_ENCRYPTED)
      requires encrypted ==> SecVersion(ctrl.pv) != SV_PLAIN
      ensures var sv, file := SecVersion(ctrl.pv), Flagged(ctrl.flags, FLAG_BINARY_TRANSMISSION);
        if sv == SV_PLAIN then Opened(stream) == Open(Plain, file, ctrl.id, stream)
        else if !encrypted then Opened(stream) == Open(BlankLink(crypto, CipherOf(sv)), file, ctrl.id, stream)
        else
          var cipher := CipherOf(sv);
          var n := cipher.IvSize();
          if |stream| < n || |keyFile| < KEY_SIZE then Opened(stream) == Session.Refused
          else
            var link := Sealed(crypto, cipher, DeriveKey(crypto, keyFile[..KEY_SIZE], stream[..n]), stream[..n]);
            Opened(stream) == Open(link, file, ctrl.id, stream[n..])
    {
      hide Flagged, BlankLink;
    }

    /** Takes the file or the message that an opened session carries. */
    method RecvData(ghost stream: seq<byte>) returns (err: int)
      requires Valid() && state == STATE_RCV_DATA && socketIO.frameOrder == 0
      requires Opened(stream) == Open(Now(), binary, ctrl.id, socketIO.sock.inbound) && shown == []
      modifies this`state, this`shown, fs, socketIO`frameOrder, socketIO.dec.iv, socketIO.ioBuffer, socketIO.plnBuffer,
               socketIO.sock`inbound, socketIO.sock`ended, socketIO.sock`faulted, socketIO.sock`readCalls
      ensures Valid() && (old(socketIO.sock.faulted) ==> socketIO.sock.faulted)
      ensures err == 0 || err == 1
      ensures err == 0 ==> Delivered(Opened(stream), outDir, old(fs.files), fs.files, shown)
      ensures err == 1 ==> fs.files == old(fs.files) && shown == []
      ensures err == 1 && !socketIO.sock.faulted ==> !Carries(Opened(stream), outDir, old(fs.files))
    {
      hide Flagged, Workable, CipherOf, SecVersion, Reception.RecvFile, Reception.RecvMessage, TargetPath, Opened,
           Kernel.Helpful, Kernel.ReadFails;
      if binary {
        err := RecvFile();
      } else {
        err := RecvMessage();
      }
    }

    /** What holds once the connection is over with error state `e`. */
    ghost predicate Closed(session: Session, sent: seq<byte>, before: Files, after: Files, shown: seq<seq<byte>>,
        e: int, clean: bool)
      requires outDir != []
    {
      && (e == 0 || e == 1)
      && Served(session, outDir, sent, before, after, shown, clean)
      && (e == 0 ==> Delivered(session, outDir, before, after, shown) && sent == AckBytes(ACK_OK) + AckBytes(ACK_OK))
      && (clean && Carries(session, outDir, before) ==> e == 0)
    }

    /** What holds between two turns of the control loop; in particular, no state that its switch ignores is entered. */
    ghost predicate At(out0: seq<byte>, stream: seq<byte>, files: Files, err: int)
      requires PV_NONE < ctrl.pv < PV_LAST && outDir != []
      reads this, socketIO, socketIO.sock, socketIO.dec, socketIO.dec.iv, fs
    {
      && out0 <= socketIO.sock.outbound
      && (Rank(state) > 0 ==> err == 0 && errState == 0)
      && (Rank(state) > 1 ==> fs.files == files && socketIO.frameOrder == 0 && shown == [])
      && (Rank(state) > 2 ==> socketIO.sock.Since(out0) == [])
      && (2 >= Rank(state) > 0 ==> socketIO.sock.Since(out0) == AckBytes(ACK_OK))
      && match state
         case STATE_GET_TYPE =>
           socketIO.sock.inbound == stream && socketIO.dec.AsLink() == BlankLink(crypto, socketIO.dec.cipher)
         case STATE_READ_IV =>
           encrypted && binary == Flagged(ctrl.flags, FLAG_BINARY_TRANSMISSION)
           && socketIO.sock.inbound == stream
         case STATE_READ_KEY_FILE =>
           var n := socketIO.dec.cipher.IvSize();
           encrypted && binary == Flagged(ctrl.flags, FLAG_BINARY_TRANSMISSION)
           && n <= |stream| && socketIO.dec.iv[..] == stream[..n] && socketIO.sock.inbound == stream[n..]
         case STATE_ACCEPT_CONNECTION => Opened(stream) == Open(Now(), binary, ctrl.id, socketIO.sock.inbound)
         case STATE_RCV_DATA => Opened(stream) == Open(Now(), binary, ctrl.id, socketIO.sock.inbound)
         case STATE_FINAL_ACK => Delivered(Opened(stream), outDir, files, fs.files, shown)
         case STATE_PM_CLOSE_CONN =>
           var e := if err != 0 then 1 else errState;
           Closed(Opened(stream), socketIO.sock.Since(out0), files, fs.files, shown, e, socketIO.sock.Clean())
         case _ => false
    }

    method GetType(ghost out0: seq<byte>, ghost stream: seq<byte>)
      requires Valid() && state == STATE_GET_TYPE && At(out0, stream, fs.files, 0)
      modifies this`state, this`binary
      ensures Valid() && At(out0, stream, fs.files, 0) && Rank(state) < Rank(old(state))
    {
      hide Flagged, CipherOf, SecVersion, BlankLink, Opened;
      OpenedIs(stream);
      binary := Flagged(ctrl.flags, FLAG_BINARY_TRANSMISSION);
      state := if encrypted then STATE_READ_IV else STATE_ACCEPT_CONNECTION;
    }

    method ReadIv(ghost out0: seq<byte>, ghost stream: seq<byte>) returns (err: int)
      requires Valid() && state == STATE_READ_IV && At(out0, stream, fs.files, 0)
      modifies this`state, socketIO.ioBuffer, socketIO.dec.iv, socketIO.sock`inbound, socketIO.sock`ended,
               socketIO.sock`faulted, socketIO.sock`readCalls
      ensures Valid() && At(out0, stream, fs.files, err) && Rank(state) < Rank(old(state))
    {
      hide Flagged, CipherOf, SecVersion, Workable, Opened, Kernel.Helpful, Kernel.ReadFails;
      OpenedIs(stream);
      err := socketIO.SetIVFromSocket();
      state := if err != 0 then STATE_PM_CLOSE_CONN else STATE_READ_KEY_FILE;
    }

    method ReadKeyFile(ghost out0: seq<byte>, ghost stream: seq<byte>) returns (err: int)
      requires Valid() && state == STATE_READ_KEY_FILE && At(out0, stream, fs.files, 0)
      modifies this`state, socketIO.dec
      ensures Valid() && At(out0, stream, fs.files, err) && Rank(state) < Rank(old(state))
    {
      hide Flagged, CipherOf, SecVersion, Workable, Opened, Kernel.Helpful, Kernel.ReadFails;
      OpenedIs(stream);
      err := socketIO.dec.ReadKey(keyFile);
      state := if err != 0 then STATE_PM_CLOSE_CONN else STATE_ACCEPT_CONNECTION;
    }

    method AcceptConnection(ghost out0: seq<byte>, ghost stream: seq<byte>) returns (err: int)
      requires Valid() && state == STATE_ACCEPT_CONNECTION && At(out0, stream, fs.files, 0)
      modifies this`state, socketIO.sock`outbound, socketIO.sock`stuck, socketIO.sock`writeCalls
      ensures Valid() && At(out0, stream, fs.files, err) && Rank(state) < Rank(old(state))
    {
      hide Flagged, CipherOf, SecVersion, Workable, Opened, AckBytes, Delivered, Carries, Kernel.Helpful,
           Kernel.ReadFails;
      ghost var sent;
      err, sent := socketIO.SendAck(ACK_OK);
      assert AckBytes(ACK_OK)[..ACK_FRAME_SIZE] == AckBytes(ACK_OK);
      state := if err != 0 then STATE_PM_CLOSE_CONN else STATE_RCV_DATA;
    }

    method ReceiveData(ghost out0: seq<byte>, ghost stream: seq<byte>, ghost files: Files) returns (err: int)
      requires Valid() && state == STATE_RCV_DATA && At(out0, stream, files, 0)
      modifies this`state, this`errState, this`shown, fs, socketIO`frameOrder, socketIO.dec.iv, socketIO.ioBuffer,
               socketIO.plnBuffer, socketIO.sock`inbound, socketIO.sock`ended, socketIO.sock`faulted,
               socketIO.sock`readCalls
      ensures Valid() && At(out0, stream, files, err) && Rank(state) < 2
    {
      hide Flagged, CipherOf, SecVersion, Workable, Opened, AckBytes, Delivered, Carries, Kernel.Helpful,
           Kernel.ReadFails;
      err := RecvData(stream);
      if err != 0 {
        errState := 1;
        state := STATE_PM_CLOSE_CONN;
      } else {
        state := STATE_FINAL_ACK;
      }
    }

    lemma ClosedAfterDelivery(session: Session, part: seq<byte>, before: Files, after: Files, shown: seq<seq<byte>>,
        e: int, clean: bool)
      requires outDir != [] && Delivered(session, outDir, before, after, shown)
      requires if e == 0 then part == AckBytes(ACK_OK) else e == 1 && !clean
      ensures Closed(session, AckBytes(ACK_OK) + part, before, after, shown, e, clean)
    {
      hide AckBytes, FilesAfter, Shows;
    }

    method FinalAck(ghost out0: seq<byte>, ghost stream: seq<byte>, ghost files: Files) returns (err: int)
      requires Valid() && state == STATE_FINAL_ACK && At(out0, stream, files, 0)
      modifies this`state, socketIO.sock`outbound, socketIO.sock`stuck, socketIO.sock`writeCalls
      ensures Valid() && At(out0, stream, files, err) && state == STATE_PM_CLOSE_CONN
    {
      hide Flagged, CipherOf, SecVersion, Workable, Opened, AckBytes, Delivered, Closed, Kernel.Helpful,
           Kernel.ReadFails;
      ghost var sent;
      err, sent := socketIO.SendAck(ACK_OK);
      ghost var part := AckBytes(ACK_OK)[..sent];
      assert err == 0 ==> part == AckBytes(ACK_OK);
      assert socketIO.sock.Since(out0) == AckBytes(ACK_OK) + part;
      ghost var e := if err != 0 then 1 else errState;
      ClosedAfterDelivery(Opened(stream), part, files, fs.files, shown, e, socketIO.sock.Clean());
      state := STATE_PM_CLOSE_CONN;
    }

    /** One turn of the control loop before the connection is closed. */
    method Turn(ghost out0: seq<byte>, ghost stream: seq<byte>, ghost files: Files) returns (err: int)
      requires Valid() && state != STATE_PM_CLOSE_CONN && At(out0, stream, files, 0)
      modifies this`state, this`errState, this`shown, this`binary, fs, socketIO`frameOrder, socketIO.dec,
               socketIO.dec.iv, socketIO.ioBuffer, socketIO.plnBuffer, socketIO.sock`inbound, socketIO.sock`outbound,
               socketIO.sock`stuck, socketIO.sock`writeCalls, socketIO.sock`ended, socketIO.sock`faulted,
               socketIO.sock`readCalls
      ensures Valid() && At(out0, stream, files, err) && Rank(state) < Rank(old(state))
    {
      hide Flagged, Workable, CipherOf, SecVersion, Closed, Opened, Delivered, AckBytes, BlankLink, Kernel.Helpful,
           Kernel.ReadFails;
      err := 0;
      match state {
        case STATE_GET_TYPE => GetType(out0, stream);
        case STATE_READ_IV => err := ReadIv(out0, stream);
        case STATE_READ_KEY_FILE => err := ReadKeyFile(out0, stream);
        case STATE_ACCEPT_CONNECTION => err := AcceptConnection(out0, stream);
        case STATE_RCV_DATA => err := ReceiveData(out0, stream, files);
        case STATE_FINAL_ACK => err := FinalAck(out0, stream, files);
        case _ =>
      }
    }

    /** Runs the connection to its end; the loop always stops. */
    method CtrlLoop()
      requires Valid() && state == STATE_GET_TYPE && errState == 0 && socketIO.frameOrder == 0 && shown == []
      requires socketIO.dec.AsLink() == BlankLink(crypto, socketIO.dec.cipher)
      modifies this`state, this`errState, this`shown, this`binary, fs, socketIO`frameOrder, socketIO.dec,
               socketIO.dec.iv, socketIO.ioBuffer, socketIO.plnBuffer, socketIO.sock`inbound, socketIO.sock`outbound,
               socketIO.sock`stuck, socketIO.sock`writeCalls, socketIO.sock`ended, socketIO.sock`faulted,
               socketIO.sock`readCalls
      ensures Valid() && state == STATE_PM_CLOSE_CONN
      ensures old(socketIO.sock.outbound) <= socketIO.sock.outbound
      ensures Closed(Opened(old(socketIO.sock.inbound)), socketIO.sock.Since(old(socketIO.sock.outbound)),
                     old(fs.files), fs.files, shown, errState, socketIO.sock.Clean())
    {
      ghost var stream, files, out0 := socketIO.sock.inbound, fs.files, socketIO.sock.outbound;
      var err, connected := 0, true;
      assert At(out0, stream, files, 0);
      hide Flagged, Workable, CipherOf, SecVersion, Closed, Opened, Delivered, AckBytes, BlankLink, Kernel.Helpful,
           Kernel.ReadFails;
      while connected
        invariant Valid() && At(out0, stream, files, err)
        invariant !connected ==> state == STATE_PM_CLOSE_CONN && (err != 0 ==> errState == 1)
        decreases connected, Rank(state)
      {
        if state == STATE_PM_CLOSE_CONN {
          connected := false;
          if err != 0 {
            errState := 1;
          }
        } else {
          err := Turn(out0, stream, files);
        }
      }
    }
  }
}
