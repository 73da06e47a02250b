/** A file transfer as a transition system: the client, two byte channels and the server take turns in any order,
    reads and writes move any number of bytes, either side can give up at any time, and the connection can be cut. */
module Session {
  import opened Bytes
  import opened Client
  import opened EndToEnd
  import opened Frames
  import opened Handshake
  import opened Reception
  import opened SocketIO
  import opened Upload

  /** What is fixed during a run; `taken` says that the target path exists already. */
  datatype Setup = Setup(
    info: TransferInfo, crypto: Crypto, iv: seq<byte>, allowed: seq<byte>, keyFile: seq<byte>, taken: bool)
  {
    ghost predicate Valid() {
      && Ready(info) && info.mode.MODE_FILE? && |info.name| <= BLOCK_SEALED
      && SharedKey(info, iv, keyFile)
    }

    ghost function First(): Link
      requires Ready(info)
    {
      FirstLink(info, crypto, iv)
    }

    function Hello(): seq<byte>
      requires Ready(info)
    {
      Opening(info, iv)
    }
  }

  datatype ClientPhase = Greeting | AwaitInitAck | Sending | AwaitFinalAck | Stopped(error: int)

  /** `pending` is composed and not yet written, `frames` are all frames composed, `acked` is the number of
      acknowledgements read and `ack` the beginning of the next. */
  datatype ClientState = ClientState(
    phase: ClientPhase, pending: seq<byte>, link: Link, frames: seq<Frame>, progress: Progress, ack: seq<byte>,
    acked: nat)

  /** Bytes on their way up to the server and down to the client. What a cut, or a write after it, has lost is
      kept for the books. */
  datatype Net = Net(up: seq<byte>, down: seq<byte>, lostUp: seq<byte>, lostDown: seq<byte>, broken: bool)
  {
    function SendUp(bytes: seq<byte>): Net {
      if broken then this.(lostUp := lostUp + bytes) else this.(up := up + bytes)
    }

    function SendDown(bytes: seq<byte>): Net {
      if broken then this.(lostDown := lostDown + bytes) else this.(down := down + bytes)
    }
  }

  datatype File = NoFile | Partial(written: seq<byte>) | Saved(content: seq<byte>) | Deleted

  datatype ServerPhase = Waiting | InitAck | RecvName | RecvBlocks | FinalAck | Closed(error: int)

  /** `buf` is the part of the current item that has arrived, `out` what is left of an acknowledgement to write,
      and `acks` the number of acknowledgements begun. */
  datatype ServerState = ServerState(
    phase: ServerPhase, buf: seq<byte>, link: Link, order: u32, id: byte, out: seq<byte>, acks: nat, file: File)

  datatype State = State(client: ClientState, net: Net, server: ServerState)

  datatype Action =
    | ClientWrite(n: nat) | ClientCompose(pad: seq<byte>) | ClientRead(n: nat) | ClientAdvance | ClientEof | ClientFail
    | ServerRead(n: nat) | ServerHandle | ServerWrite(n: nat) | ServerFail
    | Cut(up: nat, down: nat)

  ghost function Init(setup: Setup): State
    requires setup.Valid()
  {
    State(
      ClientState(Greeting, setup.Hello(), setup.First(), [], Progress(Naming, setup.info.source), [], 0),
      Net([], [], [], [], false),
      ServerState(Waiting, [], Plain, 0, 0, [], 0, NoFile))
  }

  // ---------- client ----------

  function NextFrame(setup: Setup, c: ClientState, pad: seq<byte>): Frame {
    Frame(NextFlags(c.progress), NextData(c.link, setup.info.name, c.progress), pad)
  }

  /** Waiting for an acknowledgement, the client hits end of stream once the server has closed the connection and
      everything it has sent is read. */
  predicate ClientEnabled(setup: Setup, s: State, a: Action) {
    var c, net := s.client, s.net;
    match a
    case ClientWrite(n) => (c.phase.Greeting? || c.phase.Sending?) && 1 <= n <= |c.pending|
    case ClientCompose(pad) =>
      c.phase.Sending? && c.pending == [] && !c.progress.stage.Finished? && WellFormed(c.link, NextFrame(setup, c, pad))
    case ClientRead(n) =>
      (c.phase.AwaitInitAck? || c.phase.AwaitFinalAck?) && 1 <= n <= |net.down| && |c.ack| + n <= ACK_FRAME_SIZE
    case ClientAdvance =>
      (match c.phase
       case Greeting => c.pending == []
       case Sending => c.pending == [] && c.progress.stage.Finished?
       case Stopped(_) => false
       case _ => |c.ack| == ACK_FRAME_SIZE)
    case ClientEof =>
      (c.phase.AwaitInitAck? || c.phase.AwaitFinalAck?) && s.server.phase.Closed? && net.down == []
      && |c.ack| < ACK_FRAME_SIZE
    case ClientFail => !c.phase.Stopped?
    case _ => false
  }

  function TakeAck(c: ClientState, next: ClientPhase): ClientState
    requires |c.ack| == ACK_FRAME_SIZE
  {
    if ReadAck(c.ack) != ACK_OK then c.(phase := Stopped(1)) else c.(phase := next, ack := [], acked := c.acked + 1)
  }

  function ClientStep(setup: Setup, s: State, a: Action): ClientState
    requires ClientEnabled(setup, s, a)
  {
    var c, net := s.client, s.net;
    match a
    case ClientWrite(n) => c.(pending := c.pending[n..])
    case ClientCompose(pad) =>
      var f := NextFrame(setup, c, pad);
      c.(pending := Wire(c.link, f, OrderAfter(0, |c.frames|), setup.info.id), link := c.link.Next(),
         frames := c.frames + [f], progress := Step(c.link, c.progress))
    case ClientRead(n) => c.(ack := c.ack + net.down[..n])
    case ClientAdvance =>
      (match c.phase
       case Greeting => c.(phase := AwaitInitAck)
       case Sending => c.(phase := AwaitFinalAck)
       case AwaitInitAck => TakeAck(c, Sending)
       case AwaitFinalAck => TakeAck(c, Stopped(0))
       case Stopped(_) => c)
    case _ => c.(phase := Stopped(1))
  }

  // ---------- server ----------

  /** How many bytes the item under way takes, as far as its beginning tells. */
  function Need(setup: Setup, sv: ServerState): nat {
    if sv.phase.Waiting? then
      if |sv.buf| < CTRL_FRAME_SIZE then CTRL_FRAME_SIZE
      else
        var cf := DecodeCtrl(sv.buf[..CTRL_FRAME_SIZE]);
        if Admitted(cf, setup.allowed) && Flagged(cf.flags, FLAG_ENCRYPTED) && SecVersion(cf.pv) != SV_PLAIN
        then CTRL_FRAME_SIZE + CipherOf(SecVersion(cf.pv)).IvSize() else CTRL_FRAME_SIZE
    else FrameNeed(sv.link, sv.buf)
  }

  function FrameNeed(link: Link, buf: seq<byte>): nat {
    if link.Sealed? then FRAME
    else if |buf| < HEADER then HEADER
    else
      var size := DecodeHeader(buf[..HEADER]).size;
      if size <= BLOCK_PLAIN then HEADER + size else HEADER
  }

  predicate ServerEnabled(setup: Setup, sv: ServerState, net: Net, a: Action) {
    match a
    case ServerRead(n) =>
      && (sv.phase.Waiting? || sv.phase.RecvName? || sv.phase.RecvBlocks?)
      && 1 <= n <= |net.up| && |sv.buf| + n <= Need(setup, sv)
    case ServerHandle =>
      (match sv.phase
       case InitAck => sv.out == []
       case FinalAck => sv.out == []
       case Closed(_) => false
       case _ => |sv.buf| == Need(setup, sv))
    case ServerWrite(n) => (sv.phase.InitAck? || sv.phase.FinalAck?) && 1 <= n <= |sv.out|
    case ServerFail => !sv.phase.Closed?
    case _ => false
  }

  /** What giving up means: a partly written file is removed. */
  function Abort(sv: ServerState): ServerState {
    sv.(phase := Closed(1), file := if sv.file.Partial? then Deleted else sv.file)
  }

  /** Deals with a complete item. A session for a message is not followed any further. */
  function Handle(setup: Setup, sv: ServerState): ServerState {
    match sv.phase
    case Waiting =>
      (match OpenSession(setup.crypto, setup.allowed, setup.keyFile, sv.buf)
       case Refused => Abort(sv)
       case Open(link, file, id, rest) =>
         if !file then Abort(sv)
         else sv.(phase := InitAck, buf := rest, link := link, id := id, out := AckBytes(ACK_OK), acks := sv.acks + 1))
    case InitAck => sv.(phase := RecvName)
    case RecvName =>
      (match ReadFrame(sv.link, sv.buf, sv.order, sv.id)
       case Rejected => Abort(sv)
       case Accepted(f, rest) =>
         if setup.taken || !(0 < |f.data| <= MAX_FILENAME_LENGTH) then Abort(sv)
         else
           sv.(phase := RecvBlocks, buf := rest, link := sv.link.Next(), order := Succ(sv.order), file := Partial([])))
    case RecvBlocks =>
      (match ReadFrame(sv.link, sv.buf, sv.order, sv.id)
       case Rejected => Abort(sv)
       case Accepted(f, rest) =>
         var written := if sv.file.Partial? then sv.file.written else [];
         if f.data == [] then
           sv.(phase := FinalAck, buf := rest, link := sv.link.Next(), order := Succ(sv.order),
               out := AckBytes(ACK_OK), acks := sv.acks + 1, file := Saved(written))
         else
           sv.(buf := rest, link := sv.link.Next(), order := Succ(sv.order), file := Partial(written + f.data)))
    case _ => sv.(phase := Closed(0))
  }

  function ServerStep(setup: Setup, sv: ServerState, net: Net, a: Action): ServerState
    requires ServerEnabled(setup, sv, net, a)
  {
    match a
    case ServerRead(n) => sv.(buf := sv.buf + net.up[..n])
    case ServerHandle => Handle(setup, sv)
    case ServerWrite(n) => sv.(out := sv.out[n..])
    case _ => Abort(sv)
  }

  // ---------- runs ----------

  function NetStep(s: State, a: Action): Net {
    match a
    case ClientWrite(n) => if n <= |s.client.pending| then s.net.SendUp(s.client.pending[..n]) else s.net
    case ClientRead(n) => if n <= |s.net.down| then s.net.(down := s.net.down[n..]) else s.net
    case ServerRead(n) => if n <= |s.net.up| then s.net.(up := s.net.up[n..]) else s.net
    case ServerWrite(n) => if n <= |s.server.out| then s.net.SendDown(s.server.out[..n]) else s.net
    case Cut(i, j) =>
      if i <= |s.net.up| && j <= |s.net.down| then
        Net(s.net.up[..i], s.net.down[..j], s.net.up[i..] + s.net.lostUp, s.net.down[j..] + s.net.lostDown, true)
      else s.net
    case _ => s.net
  }

  /** One step; an action that is not enabled changes nothing. */
  function Next(setup: Setup, s: State, a: Action): State {
    if a.Cut? then s.(net := NetStep(s, a))
    else if ClientEnabled(setup, s, a) then s.(client := ClientStep(setup, s, a), net := NetStep(s, a))
    else if ServerEnabled(setup, s.server, s.net, a) then
      s.(server := ServerStep(setup, s.server, s.net, a), net := NetStep(s, a))
    else s
  }

  /** The state after a run. */
  ghost function Exec(setup: Setup, actions: seq<Action>): State
    requires setup.Valid()
  {
    if actions == [] then Init(setup)
    else Next(setup, Exec(setup, actions[..|actions| - 1]), actions[|actions| - 1])
  }

  // ---------- what holds in every reachable state ----------

  /** The part of the client's bytes that the server has dealt with. */
  ghost function Consumed(setup: Setup, s: State): seq<byte>
    requires setup.Valid() && AllWellFormed(setup.First(), s.client.frames)
    requires s.server.order <= |s.client.frames|
  {
    if s.server.phase.Waiting? then []
    else setup.Hello() + Stream(setup.First(), s.client.frames[..s.server.order], 0, setup.info.id)
  }

  ghost function InTransit(s: State): seq<byte> {
    s.server.buf + s.net.up + s.net.lostUp + s.client.pending
  }

  /** The client has composed an honest transfer, as far as its phase says. */
  ghost predicate ClientInv(setup: Setup, c: ClientState)
    requires setup.Valid()
  {
    && Built(setup.First(), setup.info.name, setup.info.source, c.progress, c.frames)
    && c.link == After(setup.First(), |c.frames|)
    && (c.phase.Greeting? || c.phase.AwaitInitAck? ==> c.frames == [])
    && (c.phase.AwaitFinalAck? ==> c.progress.stage.Finished?)
  }

  /** Nothing is lost unless the connection is broken, and every byte of the client is somewhere, in order: dealt with,
      arriving, on its way, lost, or not yet written. */
  ghost predicate BytesInv(setup: Setup, s: State)
    requires setup.Valid()
  {
    && (!s.net.broken ==> s.net.lostUp == [] && s.net.lostDown == [])
    && AllWellFormed(setup.First(), s.client.frames)
    && s.server.order <= |s.client.frames|
    && (s.server.phase.Waiting? || s.server.phase.InitAck? || s.server.phase.RecvName? || s.server.phase.RecvBlocks? ==>
          Consumed(setup, s) + InTransit(s) == setup.Hello() + Stream(setup.First(), s.client.frames, 0, setup.info.id))
  }

  /** The server has the client's connection, and its file is what the frames it accepted carry. */
  ghost predicate ServerInv(setup: Setup, s: State)
    requires setup.Valid()
  {
    var sv, fs := s.server, s.client.frames;
    match sv.phase
    case Waiting => sv.order == 0 && sv.file == NoFile
    case InitAck => sv.order == 0 && sv.file == NoFile && sv.link == setup.First() && sv.id == setup.info.id
    case RecvName => sv.order == 0 && sv.file == NoFile && sv.link == setup.First() && sv.id == setup.info.id
    case RecvBlocks =>
      && 0 < sv.order <= |fs| && sv.link == After(setup.First(), sv.order) && sv.id == setup.info.id
      && sv.file == Partial(Payloads(fs[1..sv.order]))
    case FinalAck => sv.file == Saved(setup.info.source)
    case Closed(_) => !sv.file.Partial? && (sv.file.Saved? ==> sv.file.content == setup.info.source)
  }

  /** Every acknowledgement byte is accounted for, and the second one is begun only once the file is saved. */
  ghost predicate AckInv(s: State) {
    var c, sv := s.client, s.server;
    && c.acked * ACK_FRAME_SIZE + |c.ack| + |s.net.down| + |s.net.lostDown| + |sv.out| == sv.acks * ACK_FRAME_SIZE
    && sv.acks <= 2
    && (sv.phase.Waiting? || sv.phase.RecvName? || sv.phase.RecvBlocks? ==> sv.out == [])
    && (sv.phase.Waiting? ==> sv.acks == 0)
    && (sv.phase.InitAck? || sv.phase.RecvName? || sv.phase.RecvBlocks? ==> sv.acks == 1)
    && (sv.acks == 2 ==> sv.file.Saved?)
    && (c.phase.Greeting? || c.phase.AwaitInitAck? ==> c.acked == 0)
    && (c.phase.Sending? || c.phase.AwaitFinalAck? ==> c.acked == 1)
    && (c.phase == Stopped(0) ==> c.acked == 2)
  }

  ghost predicate Inv(setup: Setup, s: State)
    requires setup.Valid()
  {
    ClientInv(setup, s.client) && BytesInv(setup, s) && ServerInv(setup, s) && AckInv(s)
  }

  lemma InitInv(setup: Setup)
    requires setup.Valid()
    ensures Inv(setup, Init(setup))
  {
  }

  // ---------- steps that move bytes ----------

  lemma MovesInv(setup: Setup, s: State, t: State)
    requires setup.Valid() && Inv(setup, s)
    requires InTransit(t) == InTransit(s) && (!t.net.broken ==> t.net.lostUp == [] && t.net.lostDown == [])
    requires t.client == s.client.(pending := t.client.pending, ack := t.client.ack)
    requires t.server == s.server.(buf := t.server.buf, out := t.server.out)
    requires t.server.out == s.server.out || s.server.phase.InitAck? || s.server.phase.FinalAck?
    requires |t.client.ack| + |t.net.down| + |t.net.lostDown| + |t.server.out| ==
             |s.client.ack| + |s.net.down| + |s.net.lostDown| + |s.server.out|
    ensures Inv(setup, t)
  {
    hide Built, Stream, After, Hello, FirstLink, SharedKey, InTransit;
  }

  lemma ClientWriteInv(setup: Setup, s: State, n: nat)
    requires setup.Valid() && Inv(setup, s) && ClientEnabled(setup, s, ClientWrite(n))
    ensures Inv(setup, Next(setup, s, ClientWrite(n)))
  {
    hide Built, Stream, After, Hello, FirstLink, SharedKey, ServerInv, Consumed;
    var t := Next(setup, s, ClientWrite(n));
    var out, left := s.client.pending[..n], s.client.pending[n..];
    assert s.client.pending == out + left;
    assert InTransit(t) == InTransit(s);
    MovesInv(setup, s, t);
  }

  lemma ServerReadInv(setup: Setup, s: State, n: nat)
    requires setup.Valid() && Inv(setup, s) && ServerEnabled(setup, s.server, s.net, ServerRead(n))
    ensures Inv(setup, Next(setup, s, ServerRead(n)))
  {
    hide Built, Stream, After, Hello, FirstLink, SharedKey, ServerInv, Consumed, Need;
    var t := Next(setup, s, ServerRead(n));
    assert s.net.up == s.net.up[..n] + s.net.up[n..];
    assert InTransit(t) == InTransit(s);
    MovesInv(setup, s, t);
  }

  lemma CutInv(setup: Setup, s: State, i: nat, j: nat)
    requires setup.Valid() && Inv(setup, s)
    ensures Inv(setup, Next(setup, s, Action.Cut(i, j)))
  {
    hide Inv, Setup.Valid;
    var t := Next(setup, s, Action.Cut(i, j));
    if i <= |s.net.up| && j <= |s.net.down| {
      assert s.net.up == s.net.up[..i] + s.net.up[i..];
      MovesInv(setup, s, t);
    }
  }

  lemma AckBytesInv(setup: Setup, s: State, n: nat, a: Action)
    requires setup.Valid() && Inv(setup, s)
    requires (a == ClientRead(n) && ClientEnabled(setup, s, a))
             || (a == ServerWrite(n) && ServerEnabled(setup, s.server, s.net, a))
    ensures Inv(setup, Next(setup, s, a))
  {
    hide Built, Stream, After, Hello, FirstLink, SharedKey, ServerInv, Consumed, Need;
    MovesInv(setup, s, Next(setup, s, a));
  }

  // ---------- the client's steps ----------

  lemma SameBlocks(link: Link, n: nat, name: seq<byte>, p: Progress, f: Frame)
    ensures NextData(After(link, n), name, p) == NextData(link, name, p)
    ensures Step(After(link, n), p) == Step(link, p)
    ensures WellFormed(After(link, n), f) == WellFormed(link, f)
  {
  }

  lemma ComposedClient(setup: Setup, c: ClientState, f: Frame)
    requires setup.Valid() && ClientInv(setup, c) && !c.progress.stage.Finished? && WellFormed(c.link, f)
    requires f.flags == NextFlags(c.progress) && f.data == NextData(c.link, setup.info.name, c.progress)
    ensures var link := setup.First();
      && WellFormed(link, f) && c.link.Next() == After(link, |c.frames| + 1)
      && Built(link, setup.info.name, setup.info.source, Step(c.link, c.progress), c.frames + [f])
  {
    hide Built, FirstLink, SharedKey, NextFlags, NextData, Step, WellFormed, After;
    var link := setup.First();
    SameBlocks(link, |c.frames|, setup.info.name, c.progress, f);
    BuiltStep(link, setup.info.name, setup.info.source, c.progress, c.frames, f);
    AfterStep(link, |c.frames|);
  }

  /** Composing a frame appends its bytes to those on their way. */
  lemma ComposedBytes(setup: Setup, s: State, t: State, f: Frame)
    requires setup.Valid() && BytesInv(setup, s) && WellFormed(setup.First(), f)
    requires t.server == s.server && t.net == s.net && s.client.pending == []
    requires t.client.frames == s.client.frames + [f]
    requires WellFormed(After(setup.First(), |s.client.frames|), f)
    requires t.client.pending ==
             Wire(After(setup.First(), |s.client.frames|), f, OrderAfter(0, |s.client.frames|), setup.info.id)
    ensures BytesInv(setup, t)
  {
    hide Stream, Wire, Setup.Hello, Setup.First, SharedKey, WellFormed, OrderAfter, After;
    var fs, link, before, wire := s.client.frames, setup.First(), InTransit(s), t.client.pending;
    StreamSnoc(link, fs, f, 0, setup.info.id);
    assert t.client.frames[..s.server.order] == fs[..s.server.order];
    assert InTransit(t) == before + wire;
    hide InTransit;
    Appended(Consumed(setup, s), before, wire, setup.Hello(), Stream(link, fs, 0, setup.info.id));
  }

  lemma Appended(done: seq<byte>, before: seq<byte>, wire: seq<byte>, hello: seq<byte>, all: seq<byte>)
    ensures done + before == hello + all ==> done + (before + wire) == hello + (all + wire)
  {
    assert done + (before + wire) == (done + before) + wire;
    assert hello + (all + wire) == (hello + all) + wire;
  }

  lemma ComposeInv(setup: Setup, s: State, pad: seq<byte>)
    requires setup.Valid() && Inv(setup, s) && ClientEnabled(setup, s, ClientCompose(pad))
    ensures Inv(setup, Next(setup, s, ClientCompose(pad)))
  {
    hide Built, Stream, Wire, Hello, FirstLink, SharedKey, NextFlags, NextData, Step, WellFormed, OrderAfter,
         BytesInv, Payloads;
    var f, t := NextFrame(setup, s.client, pad), Next(setup, s, ClientCompose(pad));
    ComposedClient(setup, s.client, f);
    ComposedBytes(setup, s, t, f);
    OrderWithin(setup, s);
    if 0 < s.server.order {
      assert t.client.frames[1..s.server.order] == s.client.frames[1..s.server.order];
    }
  }

  lemma OrderWithin(setup: Setup, s: State)
    requires setup.Valid() && BytesInv(setup, s)
    ensures s.server.order <= |s.client.frames|
  {
  }

  lemma AdvanceInv(setup: Setup, s: State, a: Action)
    requires setup.Valid() && Inv(setup, s) && ClientEnabled(setup, s, a)
    requires a.ClientAdvance? || a.ClientEof? || a.ClientFail?
    ensures Inv(setup, Next(setup, s, a))
  {
    hide Inv, ClientEnabled, ClientStep, Next, SharedKey;
    AdvanceIs(setup, s, a);
    AdvanceKeeps(setup, s, a);
    OnlyPhase(setup, s, ClientStep(setup, s, a));
    InvOf(setup, Next(setup, s, a));
  }

  lemma InvOf(setup: Setup, s: State)
    requires setup.Valid() && ClientInv(setup, s.client) && BytesInv(setup, s) && ServerInv(setup, s) && AckInv(s)
    ensures Inv(setup, s)
  {
  }

  lemma AdvanceIs(setup: Setup, s: State, a: Action)
    requires ClientEnabled(setup, s, a) && (a.ClientAdvance? || a.ClientEof? || a.ClientFail?)
    ensures Next(setup, s, a) == s.(client := ClientStep(setup, s, a))
  {
    hide ClientStep, ClientEnabled;
  }

  lemma AdvanceKeeps(setup: Setup, s: State, a: Action)
    requires setup.Valid() && Inv(setup, s) && ClientEnabled(setup, s, a)
    requires a.ClientAdvance? || a.ClientEof? || a.ClientFail?
    ensures var c := ClientStep(setup, s, a);
      && c.frames == s.client.frames && c.pending == s.client.pending
      && ClientInv(setup, c) && AckInv(s.(client := c))
  {
    hide Built, After, FirstLink, SharedKey, ReadAck, BytesInv, ServerInv;
  }

  /** As long as only the phase of the client and its acknowledgements change, bytes and server do not notice. */
  lemma OnlyPhase(setup: Setup, s: State, c: ClientState)
    requires setup.Valid() && Inv(setup, s)
    requires c.frames == s.client.frames && c.pending == s.client.pending
    ensures BytesInv(setup, s.(client := c)) && ServerInv(setup, s.(client := c))
  {
    hide Built, Stream, After, Hello, FirstLink, SharedKey, Payloads, AckInv, ClientInv;
  }

  // ---------- the server's steps ----------

  /** What a stream of frames begins with is its first frame. */
  lemma FirstOfStream(link: Link, fs: seq<Frame>, order: u32, id: byte, buf: seq<byte>, t: seq<byte>)
    requires AllWellFormed(link, fs) && buf + t == Stream(link, fs, order, id)
    requires ReadFrame(link, buf, order, id).Accepted?
    ensures fs != [] && Acceptable(link, fs[0], order)
    ensures var r := ReadFrame(link, buf, order, id);
      r.frame == fs[0] && r.rest + t == Stream(link.Next(), fs[1..], Succ(order), id)
  {
    hide ReadFrame, Wire, Stream, Acceptable;
    MoreBytes(link, buf, t, order, id);
    NonEmptyStream(link, fs, order, id);
    ReadsWhatWasSent(link, fs[0], Stream(link.Next(), fs[1..], Succ(order), id), order, id);
  }

  /** The next frame an honest client has composed is the next frame the server accepts. */
  lemma HonestFrame(link: Link, fs: seq<Frame>, n: u32, id: byte, buf: seq<byte>, t: seq<byte>)
    requires AllWellFormed(link, fs) && n <= |fs|
    requires Stream(link, fs[..n], 0, id) + buf + t == Stream(link, fs, 0, id)
    requires ReadFrame(After(link, n), buf, n, id).Accepted?
    ensures var r := ReadFrame(After(link, n), buf, n, id);
      && n < |fs| && r.frame == fs[n] && Acceptable(After(link, n), fs[n], n)
      && After(link, n).Next() == After(link, n + 1)
      && Stream(link, fs[..n + 1], 0, id) + r.rest + t == Stream(link, fs, 0, id)
  {
    hide ReadFrame, Wire, Stream, Acceptable, WellFormed, After;
    var now, r, tail := After(link, n), ReadFrame(After(link, n), buf, n, id), fs[n..];
    StreamSplit(link, fs, n, id);
    var done, left := Stream(link, fs[..n], 0, id), Stream(now, tail, n, id);
    SuffixIs(done, buf + t, left) by {
      assert done + (buf + t) == done + buf + t;
    }
    FirstOfStream(now, tail, n, id, buf, t);
    AfterStep(link, n);
    StreamSplit(link, fs, n + 1, id);
    assert tail[1..] == fs[n + 1..];
    var done' := Stream(link, fs[..n + 1], 0, id);
    assert done' + (r.rest + t) == done' + r.rest + t;
  }

  lemma StreamSplit(link: Link, fs: seq<Frame>, n: nat, id: byte)
    requires AllWellFormed(link, fs) && n <= |fs| && n < ROLLOVER
    ensures AllWellFormed(link, fs[..n]) && AllWellFormed(After(link, n), fs[n..])
    ensures Stream(link, fs, 0, id) == Stream(link, fs[..n], 0, id) + Stream(After(link, n), fs[n..], n, id)
  {
    hide Wire, Stream, After;
    assert fs == fs[..n] + fs[n..];
    StreamAppend(link, fs[..n], fs[n..], 0, id);
    assert OrderAfter(0, n) == n;
  }

  lemma SuffixIs(a: seq<byte>, b: seq<byte>, c: seq<byte>)
    requires a + b == a + c
    ensures b == c
  {
    assert (a + b)[|a|..] == b && (a + c)[|a|..] == c;
  }

  /** An accepted frame means that there are frames, and the first comes first. */
  lemma NonEmptyStream(link: Link, fs: seq<Frame>, order: u32, id: byte)
    requires AllWellFormed(link, fs) && ReadFrame(link, Stream(link, fs, order, id), order, id).Accepted?
    ensures fs != []
    ensures Stream(link, fs, order, id) == Wire(link, fs[0], order, id) + Stream(link.Next(), fs[1..], Succ(order), id)
  {
    hide Wire, Verified;
  }

  /** The only end-of-transmission frame is the last one, after the whole source. */
  lemma EotIsLast(link: Link, name: seq<byte>, src: seq<byte>, p: Progress, fs: seq<Frame>, n: nat)
    requires Built(link, name, src, p, fs) && 1 <= n < |fs| && fs[n].data == [] && IsEot(fs[n].flags)
    ensures n == |fs| - 1 && Payloads(fs[1..n]) == src
  {
    hide Payloads, WellFormed, IsEot;
    EotBit();
    assert fs[1..] == fs[1..n] + [fs[n]];
    PayloadsAppend(fs[1..n], [fs[n]]);
    PayloadsOfOne(fs[n]);
  }

  /** The state after the server has dealt with an item, or given up. */
  function Handled(s: State, sv: ServerState): State { s.(server := sv) }

  lemma AbortInv(setup: Setup, s: State)
    requires setup.Valid() && Inv(setup, s)
    ensures Inv(setup, Handled(s, Abort(s.server)))
  {
    hide Built, Stream, After, Hello, FirstLink, SharedKey, Payloads, InTransit;
  }

  /** A session opened on the beginning of the client's bytes is the client's, and leaves the rest of them. */
  lemma OpenedSession(setup: Setup, buf: seq<byte>, left: seq<byte>, data: seq<byte>)
    requires setup.Valid() && buf + left == setup.Hello() + data
    requires OpenSession(setup.crypto, setup.allowed, setup.keyFile, buf).Open?
    ensures var r := OpenSession(setup.crypto, setup.allowed, setup.keyFile, buf);
      r.link == setup.First() && r.id == setup.info.id && r.file && r.rest + left == data
  {
    hide Setup.Hello, Opening, FirstLink, SharedKey, OpenSession;
    HelloIs(setup);
    var all := setup.Hello() + data;
    assert buf <= all && all[|buf|..] == left by {
      assert all == buf + left;
    }
    SessionOfClient(setup.info, setup.crypto, setup.iv, setup.allowed, setup.keyFile, data, buf);
  }

  /** Opening a session takes the client's opening, and nothing else, out of the bytes on their way. */
  lemma OpenedBytes(setup: Setup, s: State, t: State)
    requires setup.Valid() && BytesInv(setup, s) && s.server.phase.Waiting? && s.server.order == t.server.order == 0
    requires var r := OpenSession(setup.crypto, setup.allowed, setup.keyFile, s.server.buf);
      r.Open? && (r.file ==> t.server.buf == r.rest && !t.server.phase.Waiting?)
    requires t.client == s.client && t.net == s.net
    ensures BytesInv(setup, t)
    ensures var r := OpenSession(setup.crypto, setup.allowed, setup.keyFile, s.server.buf);
      r.link == setup.First() && r.id == setup.info.id && r.file
  {
    hide Stream, Setup.Hello, Setup.First, SharedKey, OpenSession, WellFormed;
    var fs, link, buf := s.client.frames, setup.First(), s.server.buf;
    var data, left := Stream(link, fs, 0, setup.info.id), s.net.up + s.net.lostUp + s.client.pending;
    assert InTransit(s) == buf + left && [] + InTransit(s) == InTransit(s);
    OpenedSession(setup, buf, left, data);
    assert InTransit(t) == t.server.buf + left;
    NoStream(link, setup.info.id);
    assert fs[..0] == [] && setup.Hello() + [] == setup.Hello();
  }

  lemma HelloIs(setup: Setup)
    requires Ready(setup.info)
    ensures setup.Hello() == Opening(setup.info, setup.iv)
  {
  }

  lemma OpenInv(setup: Setup, s: State)
    requires setup.Valid() && Inv(setup, s) && s.server.phase.Waiting?
    ensures Inv(setup, Handled(s, Handle(setup, s.server)))
  {
    hide Built, Stream, After, Setup.Hello, FirstLink, SharedKey, Payloads, OpenSession, Ready, InTransit, Consumed;
    AbortInv(setup, s);
    if OpenSession(setup.crypto, setup.allowed, setup.keyFile, s.server.buf).Open? {
      OpenedBytes(setup, s, Handled(s, Handle(setup, s.server)));
    }
  }

  lemma NoStream(link: Link, id: byte)
    ensures Stream(link, [], 0, id) == []
  {
  }

  /** Accepting a frame takes it, and nothing else, out of the bytes on their way. */
  lemma AcceptedBytes(setup: Setup, s: State, t: State)
    requires setup.Valid() && ClientInv(setup, s.client) && BytesInv(setup, s)
    requires (s.server.phase.RecvName? || s.server.phase.RecvBlocks?)
    requires s.server.link == After(setup.First(), s.server.order) && s.server.id == setup.info.id
    requires var r := ReadFrame(s.server.link, s.server.buf, s.server.order, s.server.id);
      r.Accepted? && t.server.buf == r.rest && t.server.order == Succ(s.server.order)
    requires t.client == s.client && t.net == s.net && !t.server.phase.Waiting?
    ensures BytesInv(setup, t)
    ensures var n := s.server.order;
      && n < |s.client.frames| && t.server.order == n + 1
      && ReadFrame(s.server.link, s.server.buf, n, s.server.id).frame == s.client.frames[n]
      && Acceptable(s.server.link, s.client.frames[n], n)
      && s.server.link.Next() == After(setup.First(), n + 1)
  {
    hide Built, Stream, After, Setup.Hello, FirstLink, SharedKey, ReadFrame, WellFormed;
    var fs, link, id, n := s.client.frames, setup.First(), setup.info.id, s.server.order;
    var left := s.net.up + s.net.lostUp + s.client.pending;
    var all := Stream(link, fs, 0, id);
    assert InTransit(s) == s.server.buf + left && InTransit(t) == t.server.buf + left;
    Regroup(setup.Hello(), Stream(link, fs[..n], 0, id), s.server.buf, left, all);
    HonestFrame(link, fs, n, id, s.server.buf, left);
    assert n < ROLLOVER - 1 by { hide InTransit; }
    Ungroup(setup.Hello(), Stream(link, fs[..n + 1], 0, id), t.server.buf, left, all);
  }

  lemma NameInv(setup: Setup, s: State)
    requires setup.Valid() && Inv(setup, s) && s.server.phase.RecvName?
    ensures Inv(setup, Handled(s, Handle(setup, s.server)))
  {
    hide Built, Stream, After, Hello, FirstLink, SharedKey, Payloads, ReadFrame, Acceptable, InTransit, Consumed;
    AbortInv(setup, s);
    var sv, next := s.server, Handled(s, Handle(setup, s.server));
    StartOfRun(setup.First());
    if ReadFrame(sv.link, sv.buf, sv.order, sv.id).Accepted? && next.server.phase.RecvBlocks? {
      AcceptedBytes(setup, s, next);
      assert s.client.frames[1..1] == [] && Payloads([]) == [] by { NoPayloads(); }
    }
  }

  lemma BlockInv(setup: Setup, s: State)
    requires setup.Valid() && Inv(setup, s) && s.server.phase.RecvBlocks?
    ensures Inv(setup, Handled(s, Handle(setup, s.server)))
  {
    hide Built, Stream, After, Hello, FirstLink, SharedKey, Payloads, ReadFrame, Acceptable, InTransit, Consumed;
    AbortInv(setup, s);
    var sv, fs, next := s.server, s.client.frames, Handled(s, Handle(setup, s.server));
    var n, r := sv.order, ReadFrame(sv.link, sv.buf, sv.order, sv.id);
    if r.Accepted? {
      AcceptedBytes(setup, s, next);
      if r.frame.data == [] {
        LastAccepted(setup.First(), setup, s, n);
      } else {
        assert fs[1..n + 1] == fs[1..n] + [fs[n]];
        PayloadsAppend(fs[1..n], [fs[n]]);
        PayloadsOfOne(fs[n]);
      }
    }
  }

  lemma StartOfRun(link: Link)
    ensures After(link, 0) == link
  {
  }

  lemma LastAccepted(link: Link, setup: Setup, s: State, n: u32)
    requires setup.Valid() && ClientInv(setup, s.client) && link == setup.First()
    requires 1 <= n < |s.client.frames| && Acceptable(After(link, n), s.client.frames[n], n)
    requires s.client.frames[n].data == []
    ensures Payloads(s.client.frames[1..n]) == setup.info.source
  {
    hide Built, FirstLink, SharedKey, IsEot;
    EotIsLast(link, setup.info.name, setup.info.source, s.client.progress, s.client.frames, n);
  }

  lemma Regroup(hello: seq<byte>, done: seq<byte>, buf: seq<byte>, t: seq<byte>, all: seq<byte>)
    requires (hello + done) + (buf + t) == hello + all
    ensures done + buf + t == all
  {
    assert (hello + done) + (buf + t) == hello + (done + buf + t);
    SuffixIs(hello, done + buf + t, all);
  }

  lemma Ungroup(hello: seq<byte>, done: seq<byte>, buf: seq<byte>, t: seq<byte>, all: seq<byte>)
    requires done + buf + t == all
    ensures (hello + done) + (buf + t) == hello + all
  {
  }

  lemma HandleInv(setup: Setup, s: State)
    requires setup.Valid() && Inv(setup, s) && ServerEnabled(setup, s.server, s.net, ServerHandle)
    ensures Inv(setup, Handled(s, Handle(setup, s.server)))
  {
    hide Built, Stream, After, Setup.Hello, FirstLink, SharedKey, Payloads, OpenSession, ReadFrame, Ready, Need;
    match s.server.phase
    case Waiting => OpenInv(setup, s);
    case RecvName => NameInv(setup, s);
    case RecvBlocks => BlockInv(setup, s);
    case _ =>
  }

  lemma NextInv(setup: Setup, s: State, a: Action)
    requires setup.Valid() && Inv(setup, s)
    ensures Inv(setup, Next(setup, s, a))
  {
    hide Inv, Setup.Valid, ClientStep, Handle, Abort, NetStep, Need;
    if a.Cut? {
      CutInv(setup, s, a.up, a.down);
    } else if ClientEnabled(setup, s, a) {
      match a
      case ClientWrite(n) => ClientWriteInv(setup, s, n);
      case ClientCompose(pad) => ComposeInv(setup, s, pad);
      case ClientRead(n) => AckBytesInv(setup, s, n, a);
      case _ => AdvanceInv(setup, s, a);
    } else if ServerEnabled(setup, s.server, s.net, a) {
      match a
      case ServerRead(n) => ServerReadInv(setup, s, n);
      case ServerWrite(n) => AckBytesInv(setup, s, n, a);
      case ServerHandle => HandleServer(setup, s, a);
      case _ => HandleServer(setup, s, a);
    }
  }

  lemma HandleServer(setup: Setup, s: State, a: Action)
    requires setup.Valid() && Inv(setup, s) && (a.ServerHandle? || a.ServerFail?)
    requires ServerEnabled(setup, s.server, s.net, a)
    ensures Inv(setup, Next(setup, s, a))
  {
    hide Inv, Setup.Valid, Handle, Abort, Need;
    if a.ServerHandle? {
      HandleInv(setup, s);
    } else {
      AbortInv(setup, s);
    }
  }

  /** Whatever happens, in whatever order: the invariant holds at the end of every run. */
  lemma {:induction false} RunInv(setup: Setup, actions: seq<Action>)
    requires setup.Valid()
    ensures Inv(setup, Exec(setup, actions))
  {
    hide Inv, Next, Init, Setup.Valid;
    if actions == [] {
      InitInv(setup);
    } else {
      RunInv(setup, actions[..|actions| - 1]);
      NextInv(setup, Exec(setup, actions[..|actions| - 1]), actions[|actions| - 1]);
    }
  }

  /** What the server has not dealt with yet is the stream of the remaining frames. */
  lemma Remaining(setup: Setup, s: State, left: seq<byte>)
    requires setup.Valid() && Inv(setup, s) && (s.server.phase.RecvName? || s.server.phase.RecvBlocks?)
    requires left == s.net.up + s.net.lostUp + s.client.pending
    ensures var sv, fs := s.server, s.client.frames;
      && sv.id == setup.info.id && sv.link == After(setup.First(), sv.order)
      && AllWellFormed(sv.link, fs[sv.order..])
      && sv.buf + left == Stream(sv.link, fs[sv.order..], sv.order, sv.id)
  {
    hide Built, Stream, After, Setup.Hello, FirstLink, SharedKey, WellFormed;
    var sv, fs, link, id := s.server, s.client.frames, setup.First(), setup.info.id;
    var n, all := sv.order, Stream(setup.First(), s.client.frames, 0, setup.info.id);
    StartOfRun(link);
    var done := Stream(link, fs[..n], 0, id);
    assert InTransit(s) == sv.buf + left;
    Regroup(setup.Hello(), done, sv.buf, left, all);
    StreamSplit(link, fs, n, id);
    assert done + (sv.buf + left) == done + sv.buf + left;
    SuffixIs(done, sv.buf + left, Stream(After(link, n), fs[n..], n, id));
  }

  /** The bytes on their way to the server are, in order, what is left of the client's opening and of the frames it has
      composed; and what the server has written, the payloads of those frames, and what the client has not read yet are
      exactly the source. */
  ghost predicate NothingLostNorInvented(setup: Setup, s: State)
    requires setup.Valid() && AllWellFormed(setup.First(), s.client.frames)
  {
    var sv, fs, src, unread := s.server, s.client.frames, setup.info.source, s.client.progress.unread;
    match sv.phase
    case Waiting =>
      && InTransit(s) == setup.Hello() + Stream(setup.First(), fs, 0, setup.info.id)
      && FromSource(fs, unread, src)
    case InitAck => InTransit(s) == Stream(setup.First(), fs, 0, setup.info.id) && FromSource(fs, unread, src)
    case RecvName => InTransit(s) == Stream(setup.First(), fs, 0, setup.info.id) && FromSource(fs, unread, src)
    case RecvBlocks =>
      && 0 < sv.order <= |fs| && sv.file.Partial? && sv.file.written <= src
      && AllWellFormed(sv.link, fs[sv.order..]) && sv.link == After(setup.First(), sv.order)
      && InTransit(s) == Stream(sv.link, fs[sv.order..], sv.order, setup.info.id)
      && sv.file.written + Payloads(fs[sv.order..]) + unread == src
    case FinalAck => sv.file == Saved(src)
    case Closed(_) => sv.file == NoFile || sv.file == Deleted || sv.file == Saved(src)
  }

  /** The payloads behind the name and what is unread are the source. */
  predicate FromSource(fs: seq<Frame>, unread: seq<byte>, src: seq<byte>) {
    (if fs == [] then [] else Payloads(fs[1..])) + unread == src
  }

  /** In every reachable state: nothing is lost nor invented; the second acknowledgement is begun only after the whole
      source is saved; and a client that has stopped without error has been told so: the file is there. */
  lemma Safety(setup: Setup, actions: seq<Action>)
    requires setup.Valid()
    ensures var s := Exec(setup, actions);
      && AllWellFormed(setup.First(), s.client.frames) && NothingLostNorInvented(setup, s)
      && (s.server.acks > 1 ==> s.server.file == Saved(setup.info.source))
      && (s.client.phase == Stopped(0) ==> s.server.file == Saved(setup.info.source))
  {
    hide Exec, NothingLostNorInvented, Built, Stream, FirstLink, SharedKey, Setup.Hello, InTransit, After, WellFormed;
    RunInv(setup, actions);
    var s := Exec(setup, actions);
    Accounted(setup, s);
    assert s.client.phase == Stopped(0) ==> s.server.acks == 2;
  }

  lemma Accounted(setup: Setup, s: State)
    requires setup.Valid() && Inv(setup, s)
    ensures NothingLostNorInvented(setup, s)
  {
    hide Built, Stream, FirstLink, SharedKey, Setup.Hello, Payloads, WellFormed, After, FromSource;
    var sv, fs := s.server, s.client.frames;
    var left := s.net.up + s.net.lostUp + s.client.pending;
    assert InTransit(s) == sv.buf + left && [] + InTransit(s) == InTransit(s);
    match sv.phase
    case Waiting => AllFromSource(setup, s);
    case InitAck =>
      AllFromSource(setup, s);
      NoStream(setup.First(), setup.info.id);
      assert fs[..0] == [];
      Regroup(setup.Hello(), [], sv.buf, left, Stream(setup.First(), fs, 0, setup.info.id));
    case RecvName =>
      AllFromSource(setup, s);
      Remaining(setup, s, left);
      StartOfRun(setup.First());
      assert fs[0..] == fs;
    case RecvBlocks =>
      Remaining(setup, s, left);
      Conserved(setup, s);
    case _ =>
  }

  lemma AllFromSource(setup: Setup, s: State)
    requires setup.Valid() && ClientInv(setup, s.client)
    ensures FromSource(s.client.frames, s.client.progress.unread, setup.info.source)
  {
    hide FirstLink, SharedKey, WellFormed, Payloads;
    assert [] + s.client.progress.unread == s.client.progress.unread;
  }

  lemma Conserved(setup: Setup, s: State)
    requires setup.Valid() && ClientInv(setup, s.client) && 0 < s.server.order <= |s.client.frames|
    ensures var fs, n := s.client.frames, s.server.order;
      Payloads(fs[1..n]) + Payloads(fs[n..]) + s.client.progress.unread == setup.info.source
  {
    hide Payloads, FirstLink, SharedKey, WellFormed;
    var fs, n := s.client.frames, s.server.order;
    assert fs[1..] == fs[1..n] + fs[n..];
    PayloadsAppend(fs[1..n], fs[n..]);
  }
}
