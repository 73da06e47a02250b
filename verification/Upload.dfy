/** The frames of a file transfer as `sendFile` in src/xcc_protocol_handler.hpp produces them,
    and what a server makes of them when nothing goes wrong in between. */
module Upload {
  import opened Arithmetic
  import opened Bytes
  import opened Frames
  import opened Reception

  /** How far the client has got: the name frame is next, the source is still good, it has hit
      end of file, or the end-of-transmission frame is out. */
  datatype Stage = Naming | Good | AtEof | Finished

  datatype Progress = Progress(stage: Stage, unread: seq<byte>)

  function NextFlags(p: Progress): byte {
    match p.stage
    case Naming => FLAG_DATA_FRAME
    case AtEof => FLAG_END_OF_TRANSMISSION
    case _ => 0
  }

  /** The payload of the next frame: the name, then one read of at most a block, then nothing. */
  function NextData(link: Link, name: seq<byte>, p: Progress): seq<byte> {
    match p.stage
    case Naming => name
    case Good => p.unread[..Min(link.BlockSize(), |p.unread|)]
    case _ => []
  }

  /** A read that comes back short sets the end-of-file state; a full one does not. */
  function Step(link: Link, p: Progress): Progress {
    match p.stage
    case Naming => p.(stage := Good)
    case Good =>
      if |p.unread| < link.BlockSize() then Progress(AtEof, [])
      else p.(unread := p.unread[link.BlockSize()..])
    case _ => p.(stage := Finished)
  }

  /** Frames after the name that are neither the short last block nor the end of transmission. */
  function FullBlocks(stage: Stage, n: nat): int {
    match stage
    case Naming => 0
    case Good => n - 1
    case AtEof => n - 2
    case Finished => n - 3
  }

  /** The frames produced so far that carry the source: all but the name and the end of transmission. */
  function DataFrames(stage: Stage, fs: seq<Frame>): seq<Frame> {
    if fs == [] then []
    else if stage.Finished? && |fs| > 1 then fs[1..|fs| - 1]
    else fs[1..]
  }

  /** `fs` are the frames produced so far for source `src`, and `p` says what is left. */
  predicate Built(link: Link, name: seq<byte>, src: seq<byte>, p: Progress, fs: seq<Frame>) {
    && AllWellFormed(link, fs)
    && if p.stage.Naming? then fs == [] && p.unread == src
       else
         var k := FullBlocks(p.stage, |fs|);
         && k >= 0
         && fs[0].data == name && fs[0].flags == FLAG_DATA_FRAME
         && Payloads(fs[1..]) + p.unread == src
         && (forall i :: 1 <= i <= k ==> |fs[i].data| == link.BlockSize())
         && (forall i :: 1 <= i <= k ==> fs[i].flags == 0)
         && (!p.stage.Good? ==> p.unread == [] && |fs[k + 1].data| < link.BlockSize() && fs[k + 1].flags == 0)
         && (p.stage.Finished? ==> fs[k + 2].data == [] && fs[k + 2].flags == FLAG_END_OF_TRANSMISSION)
  }

  lemma {:induction false} PayloadsAppend(fs: seq<Frame>, gs: seq<Frame>)
    ensures Payloads(fs + gs) == Payloads(fs) + Payloads(gs)
  {
    if fs == [] {
      assert fs + gs == gs;
    } else {
      assert (fs + gs)[1..] == fs[1..] + gs;
      PayloadsAppend(fs[1..], gs);
    }
  }

  /** Producing the next frame keeps name, source bytes and order exactly accounted for. */
  lemma BuiltStep(link: Link, name: seq<byte>, src: seq<byte>, p: Progress, fs: seq<Frame>, f: Frame)
    requires Built(link, name, src, p, fs) && !p.stage.Finished?
    requires WellFormed(link, f) && f.flags == NextFlags(p) && f.data == NextData(link, name, p)
    ensures Built(link, name, src, Step(link, p), fs + [f])
  {
    hide Payloads;
    StepAccounts(link, name, src, p, fs, f);
  }

  lemma StepAccounts(link: Link, name: seq<byte>, src: seq<byte>, p: Progress, fs: seq<Frame>, f: Frame)
    requires Built(link, name, src, p, fs) && !p.stage.Finished?
    requires f.data == NextData(link, name, p)
    ensures Payloads((fs + [f])[1..]) + Step(link, p).unread == src
  {
    hide WellFormed, NextData, Step, Payloads;
    UnreadSplit(link, name, p);
    if p.stage.Naming? {
      assert (fs + [f])[1..] == fs;
      assert Payloads(fs) == [] by { NoPayloads(); }
    } else {
      assert (fs + [f])[1..] == fs[1..] + [f];
      PayloadsAppend(fs[1..], [f]);
      PayloadsOfOne(f);
      var done, left := Payloads(fs[1..]), Step(link, p).unread;
      assert done + f.data + left == done + (f.data + left);
    }
  }

  lemma NoPayloads()
    ensures Payloads([]) == []
  {
  }

  lemma UnreadSplit(link: Link, name: seq<byte>, p: Progress)
    requires p.stage.AtEof? || p.stage.Finished? ==> p.unread == []
    ensures p.stage.Naming? ==> Step(link, p).unread == p.unread
    ensures !p.stage.Naming? ==> p.unread == NextData(link, name, p) + Step(link, p).unread
  {
  }

  lemma NextFits(link: Link, name: seq<byte>, p: Progress)
    requires |name| <= link.BlockSize()
    ensures |NextData(link, name, p)| <= link.BlockSize()
  {
  }

  lemma FinishedUnread(link: Link, name: seq<byte>, src: seq<byte>, p: Progress, fs: seq<Frame>)
    requires Built(link, name, src, p, fs) && p.stage.Finished?
    ensures p == Progress(Finished, [])
  {
  }

  lemma NothingBuilt(link: Link, name: seq<byte>, src: seq<byte>)
    ensures Built(link, name, src, Progress(Naming, src), [])
  {
  }

  /** Every transfer under way can be carried on to its end. */
  lemma {:induction false} Completion(link: Link, name: seq<byte>, src: seq<byte>, p: Progress,
      fs: seq<Frame>) returns (gs: seq<Frame>)
    requires Built(link, name, src, p, fs) && |name| <= link.BlockSize()
    ensures fs <= gs && Built(link, name, src, Progress(Finished, []), gs)
    decreases if p.stage.Naming? then 3 else if p.stage.Good? then 2 else if p.stage.AtEof? then 1 else 0, |p.unread|
  {
    hide Built;
    if p.stage.Finished? {
      FinishedUnread(link, name, src, p, fs);
      gs := fs;
    } else {
      NextFits(link, name, p);
      var data := NextData(link, name, p);
      var f := Frame(NextFlags(p), data, seq<byte>(if link.Plain? then 0 else BLOCK_SEALED - |data|, _ => 0));
      BuiltStep(link, name, src, p, fs, f);
      gs := Completion(link, name, src, Step(link, p), fs + [f]);
    }
  }

  lemma {:induction false} FullPayloads(fs: seq<Frame>, size: nat)
    requires forall i :: 0 <= i < |fs| ==> |fs[i].data| == size
    ensures |Payloads(fs)| == |fs| * size
  {
    if fs != [] {
      FullPayloads(fs[1..], size);
      assert |fs| * size == size + (|fs| - 1) * size;
    }
  }

  /** A source of L bytes takes a name frame, L/B + 1 data frames, the last of L mod B bytes, and an
      end-of-transmission frame. */
  lemma FrameCount(link: Link, name: seq<byte>, src: seq<byte>, fs: seq<Frame>)
    requires Built(link, name, src, Progress(Finished, []), fs)
    ensures |fs| == |src| / link.BlockSize() + 3
    ensures |fs[|fs| - 2].data| == |src| % link.BlockSize()
  {
    hide WellFormed, Payloads;
    var k, size := |fs| - 3, link.BlockSize();
    var full, short := fs[1..k + 1], fs[k + 1];
    assert fs[k + 1..] == [short, fs[k + 2]];
    assert fs[1..] == full + fs[k + 1..];
    PayloadsAppend(full, [short, fs[k + 2]]);
    PayloadsOfTwo(short, fs[k + 2]);
    FullPayloads(full, size);
    assert |src| == k * size + |short.data|;
    DivModUnique(|src|, k, |short.data|, size);
  }

  lemma PayloadsOfTwo(f: Frame, g: Frame)
    ensures Payloads([f, g]) == f.data + g.data
  {
    PayloadsOfOne(g);
    assert [f, g][1..] == [g];
  }

  lemma PayloadsOfOne(f: Frame)
    ensures Payloads([f]) == f.data
  {
  }

  lemma {:induction false} PayloadsPrefix(fs: seq<Frame>, k: nat)
    requires k <= |fs|
    ensures Payloads(fs[..k]) <= Payloads(fs)
  {
    assert fs == fs[..k] + fs[k..];
    PayloadsAppend(fs[..k], fs[k..]);
  }

  /** Data frame number p carries the bytes of the source from (p - 1) * B on, a whole block or what is left. */
  lemma DataFrameIs(link: Link, name: seq<byte>, src: seq<byte>, fs: seq<Frame>, p: nat)
    requires Built(link, name, src, Progress(Finished, []), fs) && 1 <= p <= |fs| - 2
    ensures var start, size := (p - 1) * link.BlockSize(), |fs[p].data|;
      && size == (if p < |fs| - 2 then link.BlockSize() else |src| % link.BlockSize())
      && start + size <= |src| && fs[p].data == src[start..start + size] && fs[p].flags == 0
  {
    hide WellFormed, Payloads;
    FrameCount(link, name, src, fs);
    var before, left := fs[1..p], fs[p..];
    assert fs[1..] == before + left;
    PayloadsAppend(before, left);
    FullPayloads(before, link.BlockSize());
    var f, after := fs[p], fs[p + 1..];
    assert left == [f] + after;
    PayloadsAppend([f], after);
    PayloadsOfOne(f);
    assert src == Payloads(before) + f.data + Payloads(after);
  }

  /** The frames of a whole transfer, one by one: blocks of 1450 bytes, or of 1434 if encrypted. */
  lemma TransferFrames(link: Link, name: seq<byte>, src: seq<byte>, fs: seq<Frame>)
    requires Built(link, name, src, Progress(Finished, []), fs)
    ensures var block := if link.Plain? then 1450 else 1434;
      && |fs| == |src| / block + 3
      && fs[0].flags == 0x01 && fs[0].data == name
      && (forall p :: 1 <= p <= |fs| - 2 ==>
            && fs[p].flags == 0 && 0 <= (p - 1) * block <= |src|
            && fs[p].data == src[(p - 1) * block..Min(p * block, |src|)])
      && fs[|fs| - 1].flags == 0x04 && fs[|fs| - 1].data == []
  {
    hide WellFormed, Payloads;
    FrameCount(link, name, src, fs);
    var block := if link.Plain? then 1450 else 1434;
    forall p | 1 <= p <= |fs| - 2
      ensures fs[p].flags == 0 && 0 <= (p - 1) * block <= |src|
              && fs[p].data == src[(p - 1) * block..Min(p * block, |src|)]
    {
      hide Built;
      DataFrameIs(link, name, src, fs, p);
      assert p * block == (p - 1) * block + block;
      if p == |fs| - 2 {
        assert |src| == |src| / block * block + |src| % block;
      }
    }
  }

  /** The server writes what comes before the first frame it rejects, and nothing more. */
  lemma {:induction false} RejectedAt(link: Link, fs: seq<Frame>, order: u32, id: byte, rest: seq<byte>, k: nat)
    requires AllWellFormed(link, fs) && k < |fs| && order + k <= ROLLOVER - 1
    requires forall i :: 0 <= i < k ==> fs[i].data != []
    requires !Acceptable(link, fs[k], order + k)
    ensures RecvBody(link, Stream(link, fs, order, id) + rest, order, id) == Cut(Payloads(fs[..k]))
    decreases k
  {
    hide ReadFrame, Wire, IsEot;
    var f, tail := fs[0], Stream(link.Next(), fs[1..], Succ(order), id);
    assert Stream(link, fs, order, id) + rest == Wire(link, f, order, id) + (tail + rest);
    ReadsWhatWasSent(link, f, tail + rest, order, id);
    if k > 0 {
      RejectedAt(link.Next(), fs[1..], Succ(order), id, rest, k - 1);
      assert fs[..k][1..] == fs[1..][..k - 1];
    } else {
      assert fs[..k] == [];
    }
  }

  lemma EotBit()
    ensures IsEot(FLAG_END_OF_TRANSMISSION) && !IsEot(0) && !IsEot(FLAG_DATA_FRAME)
  {
  }

  /** What a caller can check beforehand: the last data frame must not be empty and the
      end-of-transmission frame must stay below number 2^32 - 1. */
  predicate Transferable(link: Link, name: seq<byte>, length: nat) {
    var block := if link.Plain? then 1450 else 1434;
    0 < |name| <= 128 && length % block != 0 && length / block <= 0xFFFF_FFFC
  }

  /** A fault-free transfer stores exactly the source if and only if it is transferable. Otherwise the
      server refuses the name or drops the file after writing a prefix of the source. */
  lemma FaultFreeTransfer(link: Link, name: seq<byte>, src: seq<byte>, fs: seq<Frame>, id: byte, rest: seq<byte>)
    requires Built(link, name, src, Progress(Finished, []), fs)
    ensures var r := RecvFile(link, Stream(link, fs, 0, id) + rest, id);
      if Transferable(link, name, |src|) then r == Stored(name, src, rest)
      else r.Refused? || (r.Aborted? && r.name == name && r.written <= src)
  {
    hide RecvFile, Stream;
    if Transferable(link, name, |src|) {
      Transfers(link, name, src, fs, id, rest);
    } else {
      Drops(link, name, src, fs, id, rest);
    }
  }

  lemma Transfers(link: Link, name: seq<byte>, src: seq<byte>, fs: seq<Frame>, id: byte, rest: seq<byte>)
    requires Built(link, name, src, Progress(Finished, []), fs) && Transferable(link, name, |src|)
    ensures RecvFile(link, Stream(link, fs, 0, id) + rest, id) == Stored(name, src, rest)
  {
    hide RecvFile, Stream, IsEot, Payloads;
    FrameCount(link, name, src, fs);
    EotBit();
    var body := fs[1..];
    assert forall i :: 1 <= i < |fs| - 2 ==> body[i - 1].data == fs[i].data != [];
    assert BodyTranscript(link.Next(), body, 1);
    TranscriptIsStored(link, fs, id, rest);
  }

  lemma Drops(link: Link, name: seq<byte>, src: seq<byte>, fs: seq<Frame>, id: byte, rest: seq<byte>)
    requires Built(link, name, src, Progress(Finished, []), fs) && !Transferable(link, name, |src|)
    ensures var r := RecvFile(link, Stream(link, fs, 0, id) + rest, id);
      r.Refused? || (r.Aborted? && r.name == name && r.written <= src)
  {
    hide ReadFrame, Wire, IsEot, Stream, RecvBody, Payloads;
    FrameCount(link, name, src, fs);
    EotBit();
    var n := |fs|;
    var body := fs[1..];
    assert forall i :: 1 <= i < n - 2 ==> body[i - 1].data == fs[i].data != [];
    NameFirst(link, fs, id, rest);
    if 0 < |name| <= MAX_FILENAME_LENGTH {
      var k := if n - 3 < ROLLOVER - 2 && body[n - 3].data == [] then n - 3 else ROLLOVER - 2;
      RejectedAt(link.Next(), body, 1, id, rest, k);
      PayloadsPrefix(body, k);
    }
  }

  /** For instance, an empty source is not transferable: its empty data frame is taken for an error. */
  lemma EmptySource(link: Link, name: seq<byte>, fs: seq<Frame>, id: byte, rest: seq<byte>)
    requires Built(link, name, [], Progress(Finished, []), fs) && 0 < |name| <= MAX_FILENAME_LENGTH
    ensures RecvFile(link, Stream(link, fs, 0, id) + rest, id) == Aborted(name, [])
  {
    hide RecvFile, Stream;
    FaultFreeTransfer(link, name, [], fs, id, rest);
    NotRefused(link, name, fs, id, rest);
  }

  lemma NotRefused(link: Link, name: seq<byte>, fs: seq<Frame>, id: byte, rest: seq<byte>)
    requires fs != [] && AllWellFormed(link, fs) && fs[0].data == name && 0 < |name| <= MAX_FILENAME_LENGTH
    ensures !RecvFile(link, Stream(link, fs, 0, id) + rest, id).Refused?
  {
    hide ReadFrame, Stream, RecvBody;
    NameFirst(link, fs, id, rest);
  }

  lemma NameFirst(link: Link, fs: seq<Frame>, id: byte, rest: seq<byte>)
    requires fs != [] && AllWellFormed(link, fs)
    ensures ReadFrame(link, Stream(link, fs, 0, id) + rest, 0, id) ==
            if Acceptable(link, fs[0], 0) then Accepted(fs[0], Stream(link.Next(), fs[1..], 1, id) + rest)
            else Rejected
  {
    hide ReadFrame, Wire, IsEot;
    var tail := Stream(link.Next(), fs[1..], 1, id);
    assert Stream(link, fs, 0, id) + rest == Wire(link, fs[0], 0, id) + (tail + rest);
    ReadsWhatWasSent(link, fs[0], tail + rest, 0, id);
  }
}
