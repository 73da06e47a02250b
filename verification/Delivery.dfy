/** Runs of the transfer system in which nothing fails: they always end, and how they end depends on the setup alone. */
module Delivery {
  import opened Bytes
  import opened Ciphers
  import opened Client
  import opened EndToEnd
  import opened Fletcher
  import opened Frames
  import opened Handshake
  import opened Reception
  import opened Session
  import opened SocketIO
  import opened Upload

  predicate Fault(a: Action) { a.ClientFail? || a.ServerFail? || a.Cut? }

  predicate Possible(setup: Setup, s: State, a: Action) {
    !Fault(a) && (ClientEnabled(setup, s, a) || ServerEnabled(setup, s.server, s.net, a))
  }

  /** The server lets the client in. */
  predicate Admissible(setup: Setup) { Welcome(setup.info, setup.allowed, setup.keyFile) }

  /** What decides about a run without faults. */
  ghost predicate Deliverable(setup: Setup)
    requires setup.Valid()
  {
    Admissible(setup) && !setup.taken && Transferable(setup.First(), setup.info.name, |setup.info.source|)
  }

  function Acks(n: nat): (s: seq<byte>)
    ensures |s| == n * ACK_FRAME_SIZE
  {
    if n == 0 then [] else AckBytes(ACK_OK) + Acks(n - 1)
  }

  // ---------- what holds as long as nothing fails ----------

  ghost predicate ClientWell(s: State) {
    var c := s.client;
    && (c.phase.Stopped? && c.phase.error != 0 ==>
          c.phase.error == 1 && s.server.phase.Closed? && s.server.phase.error != 0)
    && (c.phase.AwaitInitAck? || c.phase.AwaitFinalAck? || c.phase.Stopped? ==> c.pending == [])
    && (c.phase.Greeting? || c.phase.Sending? || c.phase.Stopped? ==> c.ack == [])
    && |c.ack| <= ACK_FRAME_SIZE
    && c.acked <= s.server.acks && c.ack + s.net.down + s.server.out == Acks(s.server.acks - c.acked)
  }

  ghost predicate ServerWell(setup: Setup, s: State)
    requires setup.Valid()
  {
    var sv, fs := s.server, s.client.frames;
    match sv.phase
    case Waiting => |sv.buf| <= Need(setup, sv)
    case InitAck => sv.buf == [] && Admissible(setup)
    case RecvName => |sv.buf| <= Need(setup, sv) && Admissible(setup)
    case RecvBlocks =>
      && |sv.buf| <= Need(setup, sv) && Admissible(setup) && !setup.taken
      && 0 < |setup.info.name| <= MAX_FILENAME_LENGTH
      && sv.order <= |fs| && forall i :: 1 <= i < sv.order ==> fs[i].data != []
    case FinalAck => sv.acks == 2 && Deliverable(setup)
    case Closed(e) =>
      if e == 0 then sv.acks == 2 && sv.out == [] && sv.file.Saved? && Deliverable(setup)
      else sv.out == [] && !sv.file.Saved? && !Deliverable(setup)
  }

  ghost predicate Well(setup: Setup, s: State)
    requires setup.Valid()
  {
    Inv(setup, s) && !s.net.broken && ClientWell(s) && ServerWell(setup, s)
  }

  lemma InitWell(setup: Setup)
    requires setup.Valid()
    ensures Well(setup, Init(setup))
  {
    hide Inv, Setup.Hello, SharedKey;
    InitInv(setup);
  }

  // ---------- complete items ----------

  /** A frame is complete exactly when all of its bytes are there. */
  lemma NeedOfWire(link: Link, f: Frame, order: u32, id: byte, buf: seq<byte>, tail: seq<byte>)
    requires WellFormed(link, f) && buf <= Wire(link, f, order, id) + tail
    ensures |buf| >= HEADER ==> FrameNeed(link, buf) == |Wire(link, f, order, id)|
    ensures |buf| < HEADER ==> |buf| < FrameNeed(link, buf)
  {
    if link.Plain? && |buf| >= HEADER {
      var h := HeaderOf(f, order, id);
      hide EncodeHeader, DecodeHeader, Checksum;
      var w := Wire(link, f, order, id);
      assert buf[..HEADER] == w[..HEADER] == EncodeHeader(h);
      HeaderRoundTrip(h);
    }
  }

  lemma CompleteFrame(link: Link, fs: seq<Frame>, order: u32, id: byte, buf: seq<byte>, t: seq<byte>)
    requires AllWellFormed(link, fs) && buf + t == Stream(link, fs, order, id) && |buf| <= FrameNeed(link, buf)
    ensures |buf| == FrameNeed(link, buf) ==> fs != [] && buf == Wire(link, fs[0], order, id)
    ensures t == [] && fs != [] ==> |buf| == FrameNeed(link, buf)
  {
    hide Wire, FrameNeed;
    if fs != [] {
      var w, tail := Wire(link, fs[0], order, id), Stream(link.Next(), fs[1..], Succ(order), id);
      assert buf + t == w + tail;
      assert buf == (w + tail)[..|buf|];
      NeedOfWire(link, fs[0], order, id, buf, tail);
      if |buf| == |w| {
        assert buf == (w + tail)[..|w|] == w;
      }
    } else {
      SomeNeeded(link, buf);
    }
  }

  lemma SomeNeeded(link: Link, buf: seq<byte>)
    ensures FrameNeed(link, buf) >= HEADER
  {
  }

  /** The server waits for exactly the client's opening, or for the control frame alone when it refuses that. */
  lemma NeedOfHello(setup: Setup, sv: ServerState, data: seq<byte>)
    requires setup.Valid() && sv.phase.Waiting? && sv.buf <= setup.Hello() + data
    ensures Need(setup, sv) >= CTRL_FRAME_SIZE
    ensures var welcome := setup.info.sv in setup.allowed && setup.info.id > 0;
      |sv.buf| >= CTRL_FRAME_SIZE ==> Need(setup, sv) == if welcome then |setup.Hello()| else CTRL_FRAME_SIZE
    ensures |setup.Hello()| >= CTRL_FRAME_SIZE
  {
    hide DecodeCtrl, EncodeCtrl, ClientCtrl, Admitted, Flagged;
    HelloParses(setup.info.sv, true, setup.info.id, setup.iv, data);
    AdmittedAsClient(setup.info.sv, true, setup.info.id, setup.allowed);
    if |sv.buf| >= CTRL_FRAME_SIZE {
      assert sv.buf[..CTRL_FRAME_SIZE] == (setup.Hello() + data)[..CTRL_FRAME_SIZE];
    }
  }

  /** Once the opening is complete, the server lets the client in exactly if it is admissible. */
  lemma OpeningDecided(setup: Setup, sv: ServerState, data: seq<byte>, t: seq<byte>)
    requires setup.Valid() && sv.phase.Waiting? && sv.buf + t == setup.Hello() + data && |sv.buf| == Need(setup, sv)
    ensures var r := OpenSession(setup.crypto, setup.allowed, setup.keyFile, sv.buf);
      && (r.Open? <==> Admissible(setup))
      && (r.Open? ==> r.rest == [] && r.file && t == data)
  {
    hide OpenSession, Need, Setup.Hello, SessionLink;
    assert sv.buf == (setup.Hello() + data)[..|sv.buf|];
    NeedOfHello(setup, sv, data);
    var r := OpenSession(setup.crypto, setup.allowed, setup.keyFile, sv.buf);
    HelloIs(setup);
    if setup.info.sv in setup.allowed && setup.info.id > 0 {
      assert sv.buf == setup.Hello() && setup.Hello() + [] == setup.Hello();
      HandshakeIff(setup.crypto, setup.allowed, setup.keyFile, setup.info.sv, true, setup.info.id, setup.iv, []);
      assert t == (sv.buf + t)[|sv.buf|..] == data;
    } else if r.Open? {
      MoreSession(setup.crypto, setup.allowed, setup.keyFile, sv.buf, t);
      HandshakeIff(setup.crypto, setup.allowed, setup.keyFile, setup.info.sv, true, setup.info.id, setup.iv, data);
      assert false;
    }
  }

  /** A complete frame is accepted exactly if it is acceptable, and then nothing is left over. */
  lemma FrameDecided(setup: Setup, s: State)
    requires setup.Valid() && Inv(setup, s) && (s.server.phase.RecvName? || s.server.phase.RecvBlocks?)
    requires |s.server.buf| == Need(setup, s.server)
    ensures var sv, fs := s.server, s.client.frames;
      && sv.order < |fs|
      && ReadFrame(sv.link, sv.buf, sv.order, sv.id)
         == if Acceptable(sv.link, fs[sv.order], sv.order) then Accepted(fs[sv.order], []) else Rejected
  {
    hide Built, Stream, After, Setup.Hello, FirstLink, SharedKey, ReadFrame, WellFormed, FrameNeed, Wire, Acceptable;
    var sv, fs, link, id := s.server, s.client.frames, setup.First(), setup.info.id;
    var n, left := sv.order, s.net.up + s.net.lostUp + s.client.pending;
    Remaining(setup, s, left);
    CompleteFrame(sv.link, fs[n..], n, id, sv.buf, left);
    assert sv.buf + [] == sv.buf;
    ReadsWhatWasSent(sv.link, fs[n], [], n, id);
  }

  // ---------- what a rejection, or the last acceptance, says about the source ----------

  /** The server rejects a data frame of an honest transfer only if it is number 2^32 - 1 or the last one, left empty by
      a source of whole blocks. */
  lemma RejectedMeans(link: Link, name: seq<byte>, src: seq<byte>, p: Progress, fs: seq<Frame>, n: u32)
    requires Built(link, name, src, p, fs) && |name| <= link.BlockSize() && 1 <= n < |fs|
    requires !Acceptable(After(link, n), fs[n], n)
    ensures var size := link.BlockSize();
      n == ROLLOVER - 1 || (n == |src| / size + 1 && |src| % size == 0 && fs[n].data == [])
    ensures !Transferable(link, name, |src|)
  {
    hide Payloads, IsEot;
    EotBit();
    SameBlocks(link, n, name, p, fs[n]);
    var gs := Completion(link, name, src, p, fs);
    FrameCount(link, name, src, gs);
    assert gs[n] == fs[n];
  }

  lemma AcceptedMeans(link: Link, name: seq<byte>, src: seq<byte>, p: Progress, fs: seq<Frame>, n: u32)
    requires Built(link, name, src, p, fs) && 0 < |name| <= MAX_FILENAME_LENGTH && 1 <= n < |fs|
    requires forall i :: 1 <= i < n ==> fs[i].data != []
    requires Acceptable(After(link, n), fs[n], n) && fs[n].data == []
    ensures Transferable(link, name, |src|)
  {
    hide Payloads, IsEot, WellFormed;
    EotIsLast(link, name, src, p, fs, n);
    LastIsFinished(link, name, src, p, fs);
    FrameCount(link, name, src, fs);
  }

  lemma LastIsFinished(link: Link, name: seq<byte>, src: seq<byte>, p: Progress, fs: seq<Frame>)
    requires Built(link, name, src, p, fs) && |fs| > 1 && fs[|fs| - 1].data == [] && IsEot(fs[|fs| - 1].flags)
    ensures p == Progress(Finished, []) && |fs| >= 3
  {
    hide Payloads, IsEot, WellFormed;
    EotBit();
  }

  // ---------- steps without faults ----------

  /** Reading more of an item does not make it need less. */
  lemma NeedGrows(setup: Setup, sv: ServerState, more: seq<byte>)
    requires |sv.buf + more| <= Need(setup, sv)
    ensures |sv.buf + more| <= Need(setup, sv.(buf := sv.buf + more))
  {
    hide DecodeCtrl, DecodeHeader, Admitted, SecVersion;
    var all := sv.buf + more;
    if |sv.buf| >= CTRL_FRAME_SIZE {
      assert all[..CTRL_FRAME_SIZE] == sv.buf[..CTRL_FRAME_SIZE];
    }
    if |sv.buf| >= HEADER {
      assert all[..HEADER] == sv.buf[..HEADER];
    }
  }

  lemma ClientWriteWell(setup: Setup, s: State, n: nat)
    requires setup.Valid() && Well(setup, s) && ClientEnabled(setup, s, ClientWrite(n))
    ensures var t := Next(setup, s, ClientWrite(n)); ClientWell(t) && ServerWell(setup, t) && !t.net.broken
  {
    hide Inv, Need, Deliverable, Admissible, Acks, Setup.Valid;
  }

  lemma ClientReadWell(setup: Setup, s: State, n: nat)
    requires setup.Valid() && Well(setup, s) && ClientEnabled(setup, s, ClientRead(n))
    ensures var t := Next(setup, s, ClientRead(n)); ClientWell(t) && ServerWell(setup, t) && !t.net.broken
  {
    hide Inv, Need, Deliverable, Admissible, Acks, Setup.Valid;
    assert s.net.down == s.net.down[..n] + s.net.down[n..];
  }

  lemma ServerReadWell(setup: Setup, s: State, n: nat)
    requires setup.Valid() && Well(setup, s) && ServerEnabled(setup, s.server, s.net, ServerRead(n))
    ensures var t := Next(setup, s, ServerRead(n)); ClientWell(t) && ServerWell(setup, t) && !t.net.broken
  {
    hide Inv, Need, Deliverable, Admissible, Acks, Setup.Valid;
    NeedGrows(setup, s.server, s.net.up[..n]);
  }

  lemma ServerWriteWell(setup: Setup, s: State, n: nat)
    requires setup.Valid() && Well(setup, s) && ServerEnabled(setup, s.server, s.net, ServerWrite(n))
    ensures var t := Next(setup, s, ServerWrite(n)); ClientWell(t) && ServerWell(setup, t) && !t.net.broken
  {
    hide Inv, Need, Deliverable, Admissible, Acks, Setup.Valid;
    assert s.server.out == s.server.out[..n] + s.server.out[n..];
  }

  lemma ComposeWell(setup: Setup, s: State, a: Action)
    requires setup.Valid() && Well(setup, s)
    requires a.ClientCompose? && ClientEnabled(setup, s, a)
    ensures ClientWell(Next(setup, s, a)) && ServerWell(setup, Next(setup, s, a)) && !Next(setup, s, a).net.broken
  {
    hide Inv, Need, Deliverable, Admissible, NextFlags, NextData, WellFormed, Wire, OrderAfter, Step;
  }

  /** A complete acknowledgement of an honest server is one. */
  lemma AckIsOk(ack: seq<byte>, more: seq<byte>, n: nat)
    requires ack + more == Acks(n) && |ack| == ACK_FRAME_SIZE
    ensures n > 0 && ack == AckBytes(ACK_OK) && ReadAck(ack) == ACK_OK && more == Acks(n - 1)
  {
    hide AckBytes, ReadAck;
    assert ack == Acks(n)[..ACK_FRAME_SIZE] && more == Acks(n)[ACK_FRAME_SIZE..];
    assert n > 0;
  }

  lemma AdvanceWell(setup: Setup, s: State, a: Action)
    requires setup.Valid() && Well(setup, s)
    requires a.ClientAdvance? && ClientEnabled(setup, s, a)
    ensures ClientWell(Next(setup, s, a)) && ServerWell(setup, Next(setup, s, a)) && !Next(setup, s, a).net.broken
  {
    hide Inv, Need, Deliverable, Admissible, ReadAck, Acks;
    var c, more := s.client, s.net.down + s.server.out;
    if c.phase.AwaitInitAck? || c.phase.AwaitFinalAck? {
      assert c.ack + more == c.ack + s.net.down + s.server.out;
      AckIsOk(c.ack, more, s.server.acks - c.acked);
      assert [] + s.net.down + s.server.out == more;
    }
  }

  /** End of stream is hit only after the server has turned the client away. */
  lemma EofWell(setup: Setup, s: State)
    requires setup.Valid() && Well(setup, s) && ClientEnabled(setup, s, ClientEof)
    ensures var t := Next(setup, s, ClientEof); ClientWell(t) && ServerWell(setup, t) && !t.net.broken
  {
    hide ClientInv, BytesInv, ServerInv, Need, Deliverable, Admissible, Acks;
    assert s.client.ack + s.net.down + s.server.out == s.client.ack + s.server.out;
  }

  lemma OpenWell(setup: Setup, s: State)
    requires setup.Valid() && Well(setup, s) && s.server.phase.Waiting? && |s.server.buf| == Need(setup, s.server)
    ensures var t := Handled(s, Handle(setup, s.server)); ClientWell(t) && ServerWell(setup, t)
  {
    hide Need, Admissible, OpenSession, Setup.Hello, Built, Stream, After, FirstLink, SharedKey, Payloads, AckBytes,
         Ready;
    var sv, link := s.server, setup.First();
    var data, left := Stream(link, s.client.frames, 0, setup.info.id), s.net.up + s.net.lostUp + s.client.pending;
    assert sv.buf + left == setup.Hello() + data by {
      assert InTransit(s) == sv.buf + left && [] + InTransit(s) == InTransit(s);
    }
    OpeningDecided(setup, sv, data, left);
    OneMoreAck(s, Handled(s, Handle(setup, sv)));
  }

  /** Beginning an acknowledgement keeps the books. */
  lemma OneMoreAck(s: State, t: State)
    requires ClientWell(s) && t.client == s.client && t.net == s.net && !s.server.phase.Closed?
    requires (t.server.out == s.server.out && t.server.acks == s.server.acks)
             || (s.server.out == [] && t.server.out == AckBytes(ACK_OK) && t.server.acks == s.server.acks + 1)
    ensures ClientWell(t)
  {
    hide AckBytes, Acks;
    AcksSnoc(s.server.acks - s.client.acked);
    assert s.client.ack + s.net.down + [] == s.client.ack + s.net.down;
  }

  lemma {:induction false} AcksSnoc(n: nat)
    ensures Acks(n + 1) == Acks(n) + AckBytes(ACK_OK)
  {
    hide AckBytes;
    if n > 0 {
      AcksSnoc(n - 1);
      assert AckBytes(ACK_OK) + (Acks(n - 1) + AckBytes(ACK_OK)) == AckBytes(ACK_OK) + Acks(n - 1) + AckBytes(ACK_OK);
    } else {
      assert Acks(1) == AckBytes(ACK_OK) + Acks(0) == AckBytes(ACK_OK);
    }
  }

  lemma NameWell(setup: Setup, s: State)
    requires setup.Valid() && Well(setup, s) && s.server.phase.RecvName? && |s.server.buf| == Need(setup, s.server)
    ensures var t := Handled(s, Handle(setup, s.server)); ClientWell(t) && ServerWell(setup, t)
  {
    hide Admissible, ReadFrame, Setup.Hello, Stream, After, FirstLink, SharedKey, Payloads, AckBytes, Acks, IsEot,
         BytesInv;
    var sv, fs, t := s.server, s.client.frames, Handled(s, Handle(setup, s.server));
    FrameDecided(setup, s);
    FirstIsName(setup, s);
    OneMoreAck(s, t);
    EmptyFits(setup, t.server);
  }

  lemma EmptyFits(setup: Setup, sv: ServerState)
    ensures sv.buf == [] ==> |sv.buf| <= Need(setup, sv)
  {
  }

  lemma FirstIsName(setup: Setup, s: State)
    requires setup.Valid() && ClientInv(setup, s.client) && s.client.frames != []
    ensures s.client.frames[0].data == setup.info.name
  {
    hide FirstLink, SharedKey, Payloads;
  }

  lemma BlockWell(setup: Setup, s: State)
    requires setup.Valid() && Well(setup, s) && s.server.phase.RecvBlocks? && |s.server.buf| == Need(setup, s.server)
    ensures var t := Handled(s, Handle(setup, s.server)); ClientWell(t) && ServerWell(setup, t)
  {
    hide Admissible, ReadFrame, Setup.Hello, Stream, After, FirstLink, SharedKey, Payloads, AckBytes, Acks, IsEot,
         BytesInv, Built, Acceptable, Transferable, Need;
    var sv, fs, t := s.server, s.client.frames, Handled(s, Handle(setup, s.server));
    var link, name, src := setup.First(), setup.info.name, setup.info.source;
    FrameDecided(setup, s);
    LinkFits(setup.info, setup.crypto, setup.iv);
    if !Acceptable(sv.link, fs[sv.order], sv.order) {
      RejectedMeans(link, name, src, s.client.progress, fs, sv.order);
    } else if fs[sv.order].data == [] {
      AcceptedMeans(link, name, src, s.client.progress, fs, sv.order);
    }
    OneMoreAck(s, t);
    EmptyFits(setup, t.server);
  }

  lemma ServerHandleWell(setup: Setup, s: State)
    requires setup.Valid() && Well(setup, s) && ServerEnabled(setup, s.server, s.net, ServerHandle)
    ensures var t := Handled(s, Handle(setup, s.server)); ClientWell(t) && ServerWell(setup, t)
  {
    hide ReadFrame, OpenSession, ClientInv, BytesInv, AckBytes, Acks, Setup.Valid, Admissible, Deliverable;
    match s.server.phase
    case Waiting => OpenWell(setup, s);
    case RecvName => NameWell(setup, s);
    case RecvBlocks => BlockWell(setup, s);
    case _ => EmptyFits(setup, Handle(setup, s.server));
  }

  lemma NextWell(setup: Setup, s: State, a: Action)
    requires setup.Valid() && Well(setup, s) && !Fault(a)
    ensures Well(setup, Next(setup, s, a))
  {
    hide Inv, Setup.Valid, ClientStep, Handle, NetStep, Need, ClientWell, ServerWell;
    NextInv(setup, s, a);
    if ClientEnabled(setup, s, a) {
      match a
      case ClientAdvance => AdvanceWell(setup, s, a);
      case ClientEof => EofWell(setup, s);
      case ClientCompose(_) => ComposeWell(setup, s, a);
      case ClientWrite(n) => ClientWriteWell(setup, s, n);
      case ClientRead(n) => ClientReadWell(setup, s, n);
    } else if ServerEnabled(setup, s.server, s.net, a) {
      match a
      case ServerHandle =>
        ServerHandleWell(setup, s);
        NetUntouched(s, a);
      case ServerRead(n) => ServerReadWell(setup, s, n);
      case ServerWrite(n) => ServerWriteWell(setup, s, n);
    }
  }

  lemma NetUntouched(s: State, a: Action)
    requires a.ServerHandle?
    ensures NetStep(s, a) == s.net
  {
  }

  // ---------- no run gets stuck ----------

  /** Where a run without faults may stop: both are done. */
  predicate Ended(s: State) {
    s.server.phase.Closed? && s.client.phase.Stopped?
  }

  /** The client can go on by itself, unless it waits for the server or is done. */
  lemma ClientGoesOn(setup: Setup, s: State) returns (a: Action)
    requires setup.Valid() && Well(setup, s)
    requires s.client.phase.Greeting? || s.client.phase.Sending?
    ensures Possible(setup, s, a)
  {
    hide Inv, Need, Stream, FirstLink;
    var c, name := s.client, setup.info.name;
    if c.pending != [] {
      a := ClientWrite(1);
    } else if c.phase.Greeting? || c.progress.stage.Finished? {
      a := ClientAdvance;
    } else {
      var data := NextData(c.link, name, c.progress);
      FirstFits(setup, s);
      NextFits(c.link, name, c.progress);
      a := ClientCompose(seq<byte>(if c.link.Plain? then 0 else BLOCK_SEALED - |data|, _ => 0));
    }
  }

  lemma FirstFits(setup: Setup, s: State)
    requires setup.Valid() && Inv(setup, s)
    ensures |setup.info.name| <= s.client.link.BlockSize()
  {
  }

  /** An acknowledgement that is awaited and has been sent can be read or taken; if none is to come, that is noticed. */
  lemma AwaitedAck(setup: Setup, s: State) returns (a: Action)
    requires setup.Valid() && Well(setup, s) && (s.client.phase.AwaitInitAck? || s.client.phase.AwaitFinalAck?)
    requires (s.server.acks > s.client.acked && s.server.out == []) || s.server.phase.Closed?
    ensures Possible(setup, s, a)
  {
    hide Inv, Need, ServerWell, Acks;
    a := if |s.client.ack| == ACK_FRAME_SIZE then ClientAdvance
         else if s.net.down != [] then ClientRead(1)
         else ClientEof;
  }

  /** While the server waits for bytes, they can be handled, read, or still be written by the client. */
  lemma ServerFed(setup: Setup, s: State) returns (a: Action)
    requires setup.Valid() && Well(setup, s)
    requires s.server.phase.Waiting? || s.server.phase.RecvName? || s.server.phase.RecvBlocks?
    ensures Possible(setup, s, a)
  {
    hide Inv, Need, Stream, FirstLink, Acks, Deliverable, Admissible;
    if |s.server.buf| == Need(setup, s.server) {
      a := ServerHandle;
    } else if s.net.up != [] {
      a := ServerRead(1);
    } else if s.client.phase.Greeting? || s.client.phase.Sending? {
      a := ClientGoesOn(setup, s);
    } else {
      ClientWaits(setup, s);
      a := AwaitedAck(setup, s);
    }
  }

  /** When all of the client's bytes have arrived and the item under way is not complete, the client waits for an
      acknowledgement that is there. */
  lemma ClientWaits(setup: Setup, s: State)
    requires setup.Valid() && Well(setup, s)
    requires s.server.phase.Waiting? || s.server.phase.RecvName? || s.server.phase.RecvBlocks?
    requires |s.server.buf| != Need(setup, s.server) && s.net.up == []
    requires !s.client.phase.Greeting? && !s.client.phase.Sending?
    ensures s.client.phase.AwaitInitAck? && s.client.acked < s.server.acks && s.server.out == []
  {
    hide Stream, FirstLink, Acks, Deliverable, Admissible, Built, Need, ReadFrame, SharedKey, Setup.Hello, Payloads,
         WellFormed, After;
    assert s.client.pending == [];
    if s.server.phase.Waiting? {
      OpeningArrived(setup, s);
    } else if s.client.phase.AwaitFinalAck? {
      AllArrived(setup, s);
    }
  }

  lemma OpeningArrived(setup: Setup, s: State)
    requires setup.Valid() && Inv(setup, s) && s.server.phase.Waiting? && |s.server.buf| <= Need(setup, s.server)
    requires s.net.up + s.net.lostUp + s.client.pending == []
    ensures |s.server.buf| == Need(setup, s.server)
  {
    hide Built, Need, SharedKey, Setup.Hello, FirstLink, Stream;
    var data := Stream(setup.First(), s.client.frames, 0, setup.info.id);
    assert s.server.buf == setup.Hello() + data by {
      assert InTransit(s) == s.server.buf && [] + InTransit(s) == InTransit(s);
    }
    NeedOfHello(setup, s.server, data);
  }

  lemma AllArrived(setup: Setup, s: State)
    requires setup.Valid() && Well(setup, s) && (s.server.phase.RecvName? || s.server.phase.RecvBlocks?)
    requires s.client.progress.stage.Finished? && s.net.up + s.net.lostUp + s.client.pending == []
    ensures |s.server.buf| == Need(setup, s.server)
  {
    hide Stream, FirstLink, SharedKey, Setup.Hello, Payloads, WellFormed, After, FrameNeed;
    var sv, fs := s.server, s.client.frames;
    Remaining(setup, s, []);
    assert sv.order < |fs|;
    CompleteFrame(sv.link, fs[sv.order..], sv.order, sv.id, sv.buf, []);
  }

  /** No deadlock: as long as a run without faults has not ended, it can go on. */
  lemma Progresses(setup: Setup, s: State) returns (a: Action)
    requires setup.Valid() && Well(setup, s) && !Ended(s)
    ensures Possible(setup, s, a)
  {
    hide ClientInv, BytesInv, ServerInv, Need, Acks, Deliverable, Admissible, Setup.Valid;
    match s.server.phase
    case InitAck => a := if s.server.out == [] then ServerHandle else ServerWrite(1);
    case FinalAck => a := if s.server.out == [] then ServerHandle else ServerWrite(1);
    case Closed(_) =>
      if s.client.phase.Greeting? || s.client.phase.Sending? {
        a := ClientGoesOn(setup, s);
      } else {
        a := AwaitedAck(setup, s);
      }
    case _ => a := ServerFed(setup, s);
  }

  // ---------- every run ends ----------

  function FramesLeft(block: nat, p: Progress): nat
    requires block > 0
  {
    match p.stage
    case Naming => |p.unread| / block + 3
    case Good => |p.unread| / block + 2
    case AtEof => 1
    case Finished => 0
  }

  function ServerRank(phase: ServerPhase): nat {
    match phase
    case Waiting => 5
    case InitAck => 4
    case RecvName => 3
    case RecvBlocks => 2
    case FinalAck => 1
    case Closed(_) => 0
  }

  function ClientRank(phase: ClientPhase): nat {
    match phase
    case Greeting => 4
    case AwaitInitAck => 3
    case Sending => 2
    case AwaitFinalAck => 1
    case Stopped(_) => 0
  }

  /** Work left: frames to compose weigh more than the bytes they turn into, and bytes weigh less the further they
      have come. */
  function Measure(s: State): nat {
    var c, sv := s.client, s.server;
    5000 * FramesLeft(c.link.BlockSize(), c.progress)
    + 3 * |c.pending| + 2 * |s.net.up| + |sv.buf| + 3 * |sv.out| + 2 * |s.net.down| + |c.ack|
    + 100 * ServerRank(sv.phase) + ClientRank(c.phase)
  }

  lemma FewerFrames(link: Link, p: Progress)
    requires !p.stage.Finished?
    ensures FramesLeft(link.BlockSize(), Step(link, p)) < FramesLeft(link.BlockSize(), p)
  {
  }

  lemma ClientDecreases(setup: Setup, s: State, a: Action)
    requires setup.Valid() && Well(setup, s) && !Fault(a) && ClientEnabled(setup, s, a)
    ensures Measure(Next(setup, s, a)) < Measure(s)
  {
    hide Inv, ServerWell, Setup.Valid, FramesLeft, ReadAck, OrderAfter, NextData, NextFlags, Step, Acks;
    if a.ClientCompose? {
      hide Wire;
      var f := NextFrame(setup, s.client, a.pad);
      WireFits(s.client.link, f, OrderAfter(0, |s.client.frames|), setup.info.id);
      FewerFrames(s.client.link, s.client.progress);
    }
  }

  lemma WireFits(link: Link, f: Frame, order: u32, id: byte)
    requires WellFormed(link, f)
    ensures |Wire(link, f, order, id)| <= FRAME
  {
  }

  lemma HandleDecreases(setup: Setup, s: State)
    requires setup.Valid() && Well(setup, s) && ServerEnabled(setup, s.server, s.net, ServerHandle)
    ensures Measure(Handled(s, Handle(setup, s.server))) < Measure(s)
  {
    hide ClientInv, BytesInv, Setup.Valid, FramesLeft, ReadFrame, OpenSession, AckBytes, Acks, Admissible, Deliverable;
    match s.server.phase
    case Waiting =>
      hide Inv;
      OpenedWhole(setup, s);
    case RecvName =>
      hide Inv;
      FrameDecided(setup, s);
    case RecvBlocks =>
      hide Inv;
      FrameDecided(setup, s);
      SomeNeeded(s.server.link, s.server.buf);
    case _ =>
  }

  lemma OpenedWhole(setup: Setup, s: State)
    requires setup.Valid() && Inv(setup, s) && s.server.phase.Waiting? && |s.server.buf| == Need(setup, s.server)
    ensures var r := OpenSession(setup.crypto, setup.allowed, setup.keyFile, s.server.buf); r.Open? ==> r.rest == []
  {
    hide Need, Admissible, OpenSession, Setup.Hello, Built, Stream, After, FirstLink, SharedKey;
    var data := Stream(setup.First(), s.client.frames, 0, setup.info.id);
    var left := s.net.up + s.net.lostUp + s.client.pending;
    assert s.server.buf + left == setup.Hello() + data by {
      assert InTransit(s) == s.server.buf + left && [] + InTransit(s) == InTransit(s);
    }
    OpeningDecided(setup, s.server, data, left);
  }

  lemma ServerDecreases(setup: Setup, s: State, a: Action)
    requires setup.Valid() && Well(setup, s) && !Fault(a) && ServerEnabled(setup, s.server, s.net, a)
    ensures Measure(Next(setup, s, a)) < Measure(s)
  {
    hide Inv, ServerWell, Setup.Valid, FramesLeft, Need, Handle, Acks;
    if a.ServerHandle? {
      HandleDecreases(setup, s);
      NetUntouched(s, a);
    }
  }

  // ---------- main results ----------

  /** A run without faults, of which every action was possible when it was taken. */
  ghost predicate FaultFree(setup: Setup, actions: seq<Action>)
    requires setup.Valid()
  {
    actions == [] ||
    (var n := |actions| - 1;
     FaultFree(setup, actions[..n]) && Possible(setup, Exec(setup, actions[..n]), actions[n]))
  }

  lemma {:induction false} RunWell(setup: Setup, actions: seq<Action>)
    requires setup.Valid() && FaultFree(setup, actions)
    ensures Well(setup, Exec(setup, actions))
    ensures |actions| + Measure(Exec(setup, actions)) <= Measure(Init(setup))
  {
    hide Well, Next, Init, Setup.Valid, Measure, ClientEnabled, ServerEnabled;
    if actions == [] {
      InitWell(setup);
    } else {
      var n := |actions| - 1;
      var s, a := Exec(setup, actions[..n]), actions[n];
      RunWell(setup, actions[..n]);
      NextWell(setup, s, a);
      if ClientEnabled(setup, s, a) {
        ClientDecreases(setup, s, a);
      } else {
        ServerDecreases(setup, s, a);
      }
    }
  }

  /** Without faults, and in whatever order client, server and network take their turns: no run exceeds a length that
      the setup determines, none gets stuck before both ends have stopped, and then the whole source is saved and the
      client reports no error, if and only if the transfer is deliverable; otherwise nothing is left of it, and the
      client reports an error. */
  lemma FaultFreeRuns(setup: Setup, actions: seq<Action>)
    requires setup.Valid() && FaultFree(setup, actions)
    ensures |actions| <= Measure(Init(setup))
    ensures !Ended(Exec(setup, actions)) ==> exists a :: Possible(setup, Exec(setup, actions), a)
    ensures var s := Exec(setup, actions);
      Ended(s) ==>
        if Deliverable(setup) then s.server.file == Saved(setup.info.source) && s.client.phase == Stopped(0)
        else (s.server.file == NoFile || s.server.file == Deleted) && s.client.phase == Stopped(1)
  {
    hide Exec, ClientInv, BytesInv, Measure, Possible, Setup.Valid, Deliverable;
    RunWell(setup, actions);
    var s := Exec(setup, actions);
    if !Ended(s) {
      var a := Progresses(setup, s);
    }
  }
}
