/** Client and server together: what the outcomes of both say about each other when each end receives a beginning
    of what the other has sent. */
module EndToEnd {
  import opened Bytes
  import opened Ciphers
  import opened Client
  import opened Connection
  import opened Frames
  import opened Handshake
  import opened Reception
  import opened SocketIO
  import opened Throttle
  import opened Upload
  import opened Server

  // ---------- a transfer cut anywhere ----------

  lemma MoreBytes(link: Link, s: seq<byte>, t: seq<byte>, order: u32, id: byte)
    requires ReadFrame(link, s, order, id).Accepted?
    ensures var r := ReadFrame(link, s, order, id);
      ReadFrame(link, s + t, order, id) == Accepted(r.frame, r.rest + t)
  {
    hide ReadFrame, Wire, IsEot;
    var Accepted(f, rest) := ReadFrame(link, s, order, id);
    ReadFrameIff(link, s, f, rest, order, id);
    ReadFrameIff(link, s + t, f, rest + t, order, id);
    assert Wire(link, f, order, id) + rest + t == Wire(link, f, order, id) + (rest + t);
  }

  function Contents(b: Body): seq<byte> { if b.Cut? then b.written else b.content }

  lemma {:induction false} MoreBody(link: Link, s: seq<byte>, t: seq<byte>, order: u32, id: byte)
    ensures var b, c := RecvBody(link, s, order, id), RecvBody(link, s + t, order, id);
      && Contents(b) <= Contents(c)
      && (b.Whole? ==> c == Whole(b.content, b.rest + t))
    decreases ROLLOVER - order
  {
    hide ReadFrame;
    if ReadFrame(link, s, order, id).Accepted? {
      var Accepted(f, rest) := ReadFrame(link, s, order, id);
      MoreBytes(link, s, t, order, id);
      if f.data != [] {
        MoreBody(link.Next(), rest, t, Succ(order), id);
      }
    }
  }

  /** Whatever else follows, a stored file stays stored and an aborted one does not lose what was written. */
  lemma MoreFile(link: Link, s: seq<byte>, t: seq<byte>, id: byte)
    ensures var r, q := RecvFile(link, s, id), RecvFile(link, s + t, id);
      && (r.Stored? ==> q == Stored(r.name, r.content, r.rest + t))
      && (r.Aborted? ==> (q.Aborted? && q.name == r.name && r.written <= q.written)
                         || (q.Stored? && q.name == r.name && r.written <= q.content))
  {
    hide ReadFrame, RecvBody;
    if ReadFrame(link, s, 0, id).Accepted? {
      MoreBytes(link, s, t, 0, id);
      MoreBody(link.Next(), ReadFrame(link, s, 0, id).rest, t, 1, id);
    }
  }

  /** Cut an honest transfer anywhere, under way or complete: what the server has written is a beginning of the
      source, and what it stores is the whole source, and only after the last byte of a transferable one. */
  lemma CutTransfer(link: Link, name: seq<byte>, src: seq<byte>, p: Progress, fs: seq<Frame>, id: byte, s: seq<byte>)
    requires Built(link, name, src, p, fs) && |name| <= link.BlockSize()
    requires s <= Stream(link, fs, 0, id)
    ensures var r := RecvFile(link, s, id);
      && (r.Aborted? ==> r.name == name && r.written <= src)
      && (r.Stored? ==> r == Stored(name, src, []) && Transferable(link, name, |src|))
  {
    hide RecvFile, Stream;
    var gs := Completion(link, name, src, p, fs);
    StreamAppend(link, fs, gs[|fs|..], 0, id);
    assert fs + gs[|fs|..] == gs;
    var t := Stream(link, gs, 0, id)[|s|..];
    assert s + t == Stream(link, gs, 0, id) + [];
    hide Built;
    MoreFile(link, s, t, id);
    FaultFreeTransfer(link, name, src, gs, id, []);
  }

  // ---------- from the control frame on ----------

  lemma MoreSession(crypto: Crypto, allowed: seq<byte>, keyFile: seq<byte>, s: seq<byte>, t: seq<byte>)
    requires OpenSession(crypto, allowed, keyFile, s).Open?
    ensures var r := OpenSession(crypto, allowed, keyFile, s);
      OpenSession(crypto, allowed, keyFile, s + t) == r.(rest := r.rest + t)
  {
    hide DecodeCtrl, Admitted, Flagged, SessionLink, BlankLink;
    var c := CTRL_FRAME_SIZE;
    assert (s + t)[..c] == s[..c] && (s + t)[c..] == s[c..] + t;
    var cf, tail := DecodeCtrl(s[..c]), s[c..];
    AdmittedVersion(cf, allowed);
    if SecVersion(cf.pv) != SV_PLAIN && Flagged(cf.flags, FLAG_ENCRYPTED) {
      var n := CipherOf(SecVersion(cf.pv)).IvSize();
      assert (tail + t)[..n] == tail[..n] && (tail + t)[n..] == tail[n..] + t;
    }
  }

  /** Both ends hold the same key and the initial IV has the size of its cipher. */
  predicate SharedKey(info: TransferInfo, iv: seq<byte>, keyFile: seq<byte>) {
    info.sv != SV_PLAIN && SV_NONE < info.sv < SV_LAST ==>
      && |iv| == CipherOf(info.sv).IvSize()
      && (|keyFile| >= KEY_SIZE && |info.keyFile| >= KEY_SIZE ==> keyFile[..KEY_SIZE] == info.keyFile[..KEY_SIZE])
  }

  /** A server that opens a session on the beginning of what a client sends has the client's connection,
      and its data begin where the client's do. */
  lemma SessionOfClient(info: TransferInfo, crypto: Crypto, iv: seq<byte>, allowed: seq<byte>, keyFile: seq<byte>,
      data: seq<byte>, s: seq<byte>)
    requires Ready(info) && SharedKey(info, iv, keyFile)
    requires s <= Opening(info, iv) + data
    requires OpenSession(crypto, allowed, keyFile, s).Open?
    ensures var r := OpenSession(crypto, allowed, keyFile, s);
      && r.link == FirstLink(info, crypto, iv) && r.file == info.mode.MODE_FILE? && r.id == info.id
      && r.rest + (Opening(info, iv) + data)[|s|..] == data
  {
    hide OpenSession, Hello, SessionLink;
    var all := Opening(info, iv) + data;
    var t := all[|s|..];
    assert s + t == all;
    MoreSession(crypto, allowed, keyFile, s, t);
    HandshakeIff(crypto, allowed, keyFile, info.sv, info.mode.MODE_FILE?, info.id, iv, data);
  }

  /** What a client sends never takes the server down. */
  lemma OpeningIsHarmless(info: TransferInfo, iv: seq<byte>, data: seq<byte>, s: seq<byte>, cm: ConnectionManager)
    requires Ready(info) && s <= Opening(info, iv) + data
    ensures !cm.Fatal(s)
  {
    hide DecodeCtrl, Admitted, Flagged, ClientCtrl, Hello;
    HelloParses(info.sv, info.mode.MODE_FILE?, info.id, iv, data);
    AdmittedAsClient(info.sv, info.mode.MODE_FILE?, info.id, cm.allowed);
    if |s| >= CTRL_FRAME_SIZE {
      assert s[..CTRL_FRAME_SIZE] == (Opening(info, iv) + data)[..CTRL_FRAME_SIZE];
    }
  }

  // ---------- both outcomes ----------

  lemma PrefixUnder(hello: seq<byte>, out: seq<byte>, data: seq<byte>, all: seq<byte>)
    requires out <= hello || out == hello + data
    requires data <= all
    ensures out <= hello + all
  {
  }

  /** The bytes of a client that sends a file are the beginning of its opening and an honest transfer. */
  lemma FileBytes(info: TransferInfo, crypto: Crypto, iv: seq<byte>, out: seq<byte>, stream: seq<byte>, error: int,
      clean: bool)
    returns (p: Progress, fs: seq<Frame>)
    requires SV_NONE < info.sv < SV_LAST && info.mode.MODE_FILE? && |info.name| <= BLOCK_SEALED
    requires Ends(info, crypto, iv, out, stream, error, clean) && out != []
    ensures Ready(info)
    ensures var link := FirstLink(info, crypto, iv);
      Built(link, info.name, info.source, p, fs) && out <= Opening(info, iv) + Stream(link, fs, 0, info.id)
  {
    hide Hello, SessionLink, Built, Stream, AckBytes, Sent;
    var hello, link := Opening(info, iv), FirstLink(info, crypto, iv);
    var data := if out <= hello then [] else out[|hello|..];
    if out <= hello {
      NothingSent(info, link);
      p, fs := Progress(Naming, info.source), [];
    } else {
      p, fs :| SentPart(info, data, link, p, fs);
      assert out == hello + data;
    }
    PrefixUnder(hello, out, data, Stream(link, fs, 0, info.id));
  }

  /** Each end receives a beginning of what the other has sent, and both ends come out as their loops promise. */
  ghost predicate Together(info: TransferInfo, iv: seq<byte>, clientOut: seq<byte>, clientIn: seq<byte>, error: int,
      cm: ConnectionManager, serverIn: seq<byte>, serverOut: seq<byte>, before: Files, after: Files,
      shown: seq<seq<byte>>)
  {
    && SV_NONE < info.sv < SV_LAST && cm.outDir != [] && SharedKey(info, iv, cm.keyFile)
    && serverIn <= clientOut && clientIn <= serverOut
    && (exists clean :: Ends(info, cm.crypto, iv, clientOut, clientIn, error, clean))
    && (exists clean :: Served(cm.Opened(serverIn), cm.outDir, serverOut, before, after, shown, clean))
  }

  /** Client and server disagree about nothing that matters: the server's files change only by the client's whole
      source under the client's name, and they have changed so whenever the client reports no error. */
  lemma ClientAndServer(info: TransferInfo, iv: seq<byte>, clientOut: seq<byte>, clientIn: seq<byte>, error: int,
      cm: ConnectionManager, serverIn: seq<byte>, serverOut: seq<byte>, before: Files, after: Files,
      shown: seq<seq<byte>>, path: seq<byte>)
    requires Together(info, iv, clientOut, clientIn, error, cm, serverIn, serverOut, before, after, shown)
    requires info.mode.MODE_FILE? && |info.name| <= BLOCK_SEALED && LeadsTo(path, cm.outDir, info.name)
    ensures after == before || (path !in before && after == before[path := info.source])
    ensures error == 0 ==> path !in before && after == before[path := info.source]
  {
    hide Ends, OpenSession, RecvFile, TargetPath, LeadsTo, SharedKey;
    TargetPathIff(path, cm.outDir, info.name);
    var session := cm.Opened(serverIn);
    var clean :| Ends(info, cm.crypto, iv, clientOut, clientIn, error, clean);
    if error == 0 {
      TwoAcks(info, cm.crypto, iv, clientOut, clientIn, clean);
    }
    if session.Open? {
      NothingOpensNothing(cm.crypto, cm.allowed, cm.keyFile);
      var p, fs := FileBytes(info, cm.crypto, iv, clientOut, clientIn, error, clean);
      var link := FirstLink(info, cm.crypto, iv);
      SessionOfClient(info, cm.crypto, iv, cm.allowed, cm.keyFile, Stream(link, fs, 0, info.id), serverIn);
      LinkFits(info, cm.crypto, iv);
      CutTransfer(link, info.name, info.source, p, fs, info.id, session.rest);
    }
  }

  /** The data block of a plain or encrypted connection. */
  function Block(info: TransferInfo): nat { if info.sv == 1 then 1450 else 1434 }

  /** What is to be read of a message: all of it, or of standard input the first block, up to the first zero byte. */
  function Shown(info: TransferInfo): seq<byte> {
    CString(if info.readStdin then info.message[..Min(Block(info), |info.message|)] else info.message)
  }

  /** A given message is neither empty nor longer than a block; standard input does not begin with a zero. */
  predicate MessageFits(info: TransferInfo) {
    if info.readStdin then info.message != [] && info.message[0] != 0 else 1 <= |info.message| <= Block(info)
  }

  lemma TextIs(info: TransferInfo, block: nat)
    ensures MessageText(info, block) ==
            if info.readStdin then CString(info.message[..Min(block, |info.message|)]) else info.message
  {
  }

  lemma TextOfMessage(info: TransferInfo, crypto: Crypto, iv: seq<byte>)
    requires Ready(info)
    ensures var block := FirstLink(info, crypto, iv).BlockSize();
      && (MessageFits(info) <==> MessageText(info, block) != [] && MessageSendable(info, block))
      && Shown(info) == CString(MessageText(info, block))
  {
    var text := info.message[..Min(Block(info), |info.message|)];
    FirstByte(info.message, Block(info));
    CStringTerminated(CString(text), []);
  }

  /** A client that sends a message and reports no error has had it printed, up to its first zero byte; and the files
      are left alone. */
  lemma MessageClientAndServer(info: TransferInfo, iv: seq<byte>, clientOut: seq<byte>, clientIn: seq<byte>, error: int,
      cm: ConnectionManager, serverIn: seq<byte>, serverOut: seq<byte>, before: Files, after: Files,
      shown: seq<seq<byte>>)
    requires Together(info, iv, clientOut, clientIn, error, cm, serverIn, serverOut, before, after, shown)
    requires info.mode.MODE_TEXT? && error == 0
    ensures Ready(info) && after == before
    ensures MessageFits(info) && shown == [Shown(info)]
  {
    hide Ends, OpenSession, RecvMessage, MessageText, CString, SharedKey, FirstLink, MessageFrames, Opening,
         MessageFits, Shown;
    var session := cm.Opened(serverIn);
    var clean :| Ends(info, cm.crypto, iv, clientOut, clientIn, error, clean);
    TwoAcks(info, cm.crypto, iv, clientOut, clientIn, clean);
    var data, fs := MessageBytes(info, cm.crypto, iv, clientOut, clientIn, clean);
    var link := FirstLink(info, cm.crypto, iv);
    SessionOfClient(info, cm.crypto, iv, cm.allowed, cm.keyFile, data, serverIn);
    var rest := clientOut[|serverIn|..];
    TextIs(info, link.BlockSize());
    MessageArrives(info, link, fs, []);
    assert data + [] == session.rest + rest;
    MoreMessage(link, session.rest, rest, info.id);
    TextOfMessage(info, cm.crypto, iv);
  }

  /** The bytes of a client that has sent a message without error are its opening and the frames of the message. */
  lemma MessageBytes(info: TransferInfo, crypto: Crypto, iv: seq<byte>, out: seq<byte>, stream: seq<byte>, clean: bool)
    returns (data: seq<byte>, fs: seq<Frame>)
    requires SV_NONE < info.sv < SV_LAST && info.mode.MODE_TEXT? && Ends(info, crypto, iv, out, stream, 0, clean)
    ensures Ready(info) && out == Opening(info, iv) + data
    ensures var link := FirstLink(info, crypto, iv);
      && MessageFrames(info, link, fs) && |fs| == 2 && data == Stream(link, fs, 1, info.id)
      && MessageSendable(info, link.BlockSize())
  {
    hide Hello, SessionLink, AckBytes, Stream, MessageText;
    data := out[|Opening(info, iv)|..];
    fs :| MessageFrames(info, FirstLink(info, crypto, iv), fs) && |fs| == 2
          && data == Stream(FirstLink(info, crypto, iv), fs, 1, info.id);
  }

  /** Whatever else follows, a message taken stays the same. */
  lemma MoreMessage(link: Link, s: seq<byte>, t: seq<byte>, id: byte)
    requires !RecvMessage(link, s, id).NoFrame?
    ensures RecvMessage(link, s + t, id) == RecvMessage(link, s, id)
  {
    hide ReadFrame, CString;
    MoreBytes(link, s, t, 1, id);
  }

  lemma TwoAcks(info: TransferInfo, crypto: Crypto, iv: seq<byte>, out: seq<byte>, stream: seq<byte>, clean: bool)
    requires SV_NONE < info.sv < SV_LAST && Ends(info, crypto, iv, out, stream, 0, clean)
    ensures |stream| >= 2 * ACK_FRAME_SIZE
  {
    hide Hello, Transmitted, SessionLink;
  }

  lemma NothingOpensNothing(crypto: Crypto, allowed: seq<byte>, keyFile: seq<byte>)
    ensures OpenSession(crypto, allowed, keyFile, []).Refused?
  {
  }

  lemma LinkFits(info: TransferInfo, crypto: Crypto, iv: seq<byte>)
    requires Ready(info)
    ensures FirstLink(info, crypto, iv).BlockSize() >= BLOCK_SEALED
  {
  }

  // ---------- when nothing fails ----------

  /** Each end receives all that the other has sent, and no reading or writing fails. */
  ghost predicate Undisturbed(info: TransferInfo, iv: seq<byte>, up: seq<byte>, down: seq<byte>, error: int,
      cm: ConnectionManager, before: Files, after: Files, shown: seq<seq<byte>>)
  {
    && SV_NONE < info.sv < SV_LAST && cm.outDir != [] && SharedKey(info, iv, cm.keyFile)
    && Ends(info, cm.crypto, iv, up, down, error, true)
    && Served(cm.Opened(up), cm.outDir, down, before, after, shown, true)
  }

  /** The server is to take the connection. */
  predicate Welcome(info: TransferInfo, allowed: seq<byte>, keyFile: seq<byte>) {
    info.sv in allowed && info.id > 0 && (info.sv != 1 ==> |keyFile| >= 32)
  }

  /** What the client needs to send its file or message. */
  predicate Able(info: TransferInfo) {
    && (info.sv != 1 ==> |info.keyFile| >= 32)
    && match info.mode
       case MODE_NONE => false
       case MODE_TEXT => MessageFits(info)
       case MODE_FILE =>
         && info.openable
         && (info.bandwidth != 0 ==> 1460 <= info.bandwidth / 5 % 0x1_0000_0000 <= 0x1_0000_0000 - 1460)
  }

  /** What a file has to be like for the server to store it at `path`. */
  predicate Storable(info: TransferInfo, path: seq<byte>, files: Files) {
    && 0 < |info.name| <= 128
    && |info.source| % Block(info) != 0 && |info.source| / Block(info) <= 0xFFFF_FFFC
    && path !in files
  }

  /** The same in terms of the model's own functions. */
  predicate Arrives(info: TransferInfo, link: Link, outDir: seq<byte>, files: Files)
    requires outDir != []
  {
    && Sendable(info, link.BlockSize())
    && if info.mode.MODE_FILE? then
         Transferable(link, info.name, |info.source|) && TargetPath(outDir, info.name) !in files
       else MessageText(info, link.BlockSize()) != []
  }

  lemma ArrivesIff(info: TransferInfo, crypto: Crypto, iv: seq<byte>, outDir: seq<byte>, files: Files, path: seq<byte>)
    requires Ready(info) && outDir != [] && LeadsTo(path, outDir, info.name)
    ensures Arrives(info, FirstLink(info, crypto, iv), outDir, files)
            <==> Able(info) && (info.mode.MODE_FILE? ==> Storable(info, path, files))
  {
    hide LeadsTo, TargetPath, FramesPerBucket, MessageText, MessageFits, MessageSendable;
    TargetPathIff(path, outDir, info.name);
    TextOfMessage(info, crypto, iv);
    AdmitsFramesIff(info.bandwidth);
  }

  /** What the server does with all that a client sends. */
  lemma CarriesIff(info: TransferInfo, link: Link, data: seq<byte>, outDir: seq<byte>, files: Files)
    requires Transmitted(info, link, data, true) && !info.mode.MODE_NONE? && outDir != []
    ensures var session := Open(link, info.mode.MODE_FILE?, info.id, data);
      && (Carries(session, outDir, files) <==> Arrives(info, link, outDir, files))
      && (Arrives(info, link, outDir, files) ==>
            && (info.mode.MODE_FILE? ==> RecvFile(link, data, info.id) == Stored(info.name, info.source, []))
            && (info.mode.MODE_TEXT? ==> RecvMessage(link, data, info.id)
                                         == Text(CString(MessageText(info, link.BlockSize())))))
  {
    hide RecvFile, RecvMessage, TargetPath, Sendable, MessageText, CString, Stream, Built, MessageFrames, Transferable;
    assert data + [] == data;
    if info.mode.MODE_FILE? {
      var p, fs :| SentPart(info, data, link, p, fs) && p == Progress(Finished, [])
                   && data == Stream(link, fs, 0, info.id);
      FaultFreeTransfer(link, info.name, info.source, fs, info.id, []);
    } else {
      var fs :| MessageFrames(info, link, fs) && StreamedPart(data, link, fs, 1, info.id) && |fs| == 2
                && data == Stream(link, fs, 1, info.id);
      TextIs(info, link.BlockSize());
      MessageArrives(info, link, fs, []);
    }
  }

  lemma OnlySendable(info: TransferInfo, link: Link, data: seq<byte>)
    requires Transmitted(info, link, data, false) && data != []
    ensures Sendable(info, link.BlockSize())
  {
  }

  lemma CarriesSomething(session: Session, outDir: seq<byte>, files: Files)
    requires outDir != [] && Carries(session, outDir, files)
    ensures session.Open? && session.rest != []
  {
    hide Verified, Split;
  }

  /** The server takes the connection exactly of a welcome client. */
  lemma WelcomeIff(info: TransferInfo, crypto: Crypto, iv: seq<byte>, allowed: seq<byte>, keyFile: seq<byte>,
      data: seq<byte>)
    requires Ready(info) && SharedKey(info, iv, keyFile)
    ensures OpenSession(crypto, allowed, keyFile, Opening(info, iv) + data) ==
            if Welcome(info, allowed, keyFile)
            then Open(FirstLink(info, crypto, iv), info.mode.MODE_FILE?, info.id, data) else Session.Refused
  {
    hide OpenSession, Hello, SessionLink;
    HandshakeIff(crypto, allowed, keyFile, info.sv, info.mode.MODE_FILE?, info.id, iv, data);
  }

  /** How undisturbed connections come out, in terms of the model's own functions. */
  lemma Outcome(info: TransferInfo, iv: seq<byte>, up: seq<byte>, down: seq<byte>, error: int,
      cm: ConnectionManager, before: Files, after: Files, shown: seq<seq<byte>>)
    requires Undisturbed(info, iv, up, down, error, cm, before, after, shown)
    ensures var delivered := Ready(info) && Welcome(info, cm.allowed, cm.keyFile)
                             && Arrives(info, FirstLink(info, cm.crypto, iv), cm.outDir, before);
      && (error == 0 <==> delivered)
      && (if delivered && info.mode.MODE_FILE? then
            after == before[TargetPath(cm.outDir, info.name) := info.source] && shown == []
          else if delivered then
            && after == before
            && shown == [CString(MessageText(info, FirstLink(info, cm.crypto, iv).BlockSize()))]
          else after == before && shown == [])
  {
    hide OpenSession, Hello, Transmitted, Carries, Transferable, RecvFile, RecvMessage, TargetPath, MessageText,
         CString, AckBytes, Sendable, FirstLink, SharedKey;
    var session := cm.Opened(up);
    if Carries(session, cm.outDir, before) {
      CarriesSomething(session, cm.outDir, before);
    }
    NothingOpensNothing(cm.crypto, cm.allowed, cm.keyFile);
    if Ready(info) {
      var link := FirstLink(info, cm.crypto, iv);
      var data := up[|Opening(info, iv)|..];
      assert up == Opening(info, iv) + data;
      WelcomeIff(info, cm.crypto, iv, cm.allowed, cm.keyFile, data);
      if data != [] {
        assert Transmitted(info, link, data, false);
        OnlySendable(info, link, data);
      }
      if Transmitted(info, link, data, true) {
        CarriesIff(info, link, data, cm.outDir, before);
      }
    }
  }

  /** When nothing fails, the client reports success exactly if it is able and welcome and its file can be stored. Then
      the file has been stored or the text printed, and otherwise nothing has. */
  lemma DeliveredIff(info: TransferInfo, iv: seq<byte>, up: seq<byte>, down: seq<byte>, error: int,
      cm: ConnectionManager, before: Files, after: Files, shown: seq<seq<byte>>, path: seq<byte>)
    requires Undisturbed(info, iv, up, down, error, cm, before, after, shown) && LeadsTo(path, cm.outDir, info.name)
    ensures var delivered := Welcome(info, cm.allowed, cm.keyFile) && Able(info)
                             && (info.mode.MODE_FILE? ==> Storable(info, path, before));
      && (error == 0 <==> delivered)
      && after == (if delivered && info.mode.MODE_FILE? then before[path := info.source] else before)
      && shown == (if delivered && info.mode.MODE_TEXT? then [Shown(info)] else [])
  {
    hide Ends, Served, SharedKey, LeadsTo, Arrives, Storable, MessageText, MessageFits, Welcome;
    Outcome(info, iv, up, down, error, cm, before, after, shown);
    TargetPathIff(path, cm.outDir, info.name);
    if Ready(info) {
      ArrivesIff(info, cm.crypto, iv, cm.outDir, before, path);
      TextOfMessage(info, cm.crypto, iv);
    }
  }

  /** One connection after the other, two files whose names differ before their first zeros both get stored. */
  lemma TwoFiles(info: TransferInfo, info': TransferInfo, iv: seq<byte>, iv': seq<byte>, up: seq<byte>, up': seq<byte>,
      down: seq<byte>, down': seq<byte>, error: int, error': int, cm: ConnectionManager, cm': ConnectionManager,
      before: Files, between: Files, after: Files, path: seq<byte>, path': seq<byte>)
    requires Undisturbed(info, iv, up, down, error, cm, before, between, [])
    requires Undisturbed(info', iv', up', down', error', cm', between, after, [])
    requires cm.outDir == cm'.outDir && LeadsTo(path, cm.outDir, info.name) && LeadsTo(path', cm.outDir, info'.name)
    requires CString(info.name) != CString(info'.name) && info.mode.MODE_FILE? && info'.mode.MODE_FILE?
    requires Welcome(info, cm.allowed, cm.keyFile) && Able(info) && Storable(info, path, before)
    requires Welcome(info', cm'.allowed, cm'.keyFile) && Able(info') && Storable(info', path', before)
    ensures error == error' == 0 && path != path' && after == before[path := info.source][path' := info'.source]
  {
    hide Ends, Served, SharedKey, LeadsTo, CString, Welcome, Able;
    DeliveredIff(info, iv, up, down, error, cm, before, between, [], path);
    DeliveredIff(info', iv', up', down', error', cm', between, after, [], path');
    SamePathIff(path, cm.outDir, info.name, info'.name);
  }

  // ---------- messages ----------

  /** The server shows a message up to its first zero byte, so unchanged exactly when it has none; text from standard
      input never has one. An empty message is not taken for one. */
  lemma MessageArrives(info: TransferInfo, link: Link, fs: seq<Frame>, rest: seq<byte>)
    requires MessageFrames(info, link, fs) && |fs| == 2
    ensures var text := if info.readStdin then CString(info.message[..Min(link.BlockSize(), |info.message|)])
                        else info.message;
      && RecvMessage(link, Stream(link, fs, 1, info.id) + rest, info.id)
         == (if text == [] then NoFrame else Text(CString(text)))
      && (CString(text) == text <==> 0 !in text)
      && (info.readStdin ==> 0 !in text)
  {
    hide Wire, IsEot, CString, ReadFrame;
    var f, tail := fs[0], Stream(link.Next(), fs[1..], 2, info.id);
    assert Stream(link, fs, 1, info.id) + rest == Wire(link, f, 1, info.id) + (tail + rest);
    CStringTerminated(f.data, []);
    if f.data != [] {
      MessageDelivered(link, f, info.id, tail + rest);
    } else {
      EotBit();
      ReadsWhatWasSent(link, f, tail + rest, 1, info.id);
    }
  }
}
