/** What the server makes of a byte stream: `recv_filename`, `recv_file` and `recv_message`
    of src/xcd_protocol_handler.hpp as functions of the bytes that arrive before end of stream. */
module Reception {
  import opened Bytes
  import opened Frames

  const MAX_FILENAME_LENGTH := 128

  // ---------- the data frames of a file ----------

  datatype Body =
    | Cut(written: seq<byte>)
    | Whole(content: seq<byte>, rest: seq<byte>)
  {
    function After(block: seq<byte>): Body {
      if Cut? then Cut(block + written) else Whole(block + content, rest)
    }

    lemma AfterNothing()
      ensures After([]) == this
    {
    }

    lemma AfterTwice(first: seq<byte>, second: seq<byte>)
      ensures After(second).After(first) == After(first + second)
    {
    }
  }

  function RecvBody(link: Link, s: seq<byte>, order: u32, id: byte): Body
    decreases ROLLOVER - order
  {
    hide ReadFrame;
    match ReadFrame(link, s, order, id)
    case Rejected => Cut([])
    case Accepted(f, rest) =>
      if f.data == [] then Whole([], rest)
      else RecvBody(link.Next(), rest, Succ(order), id).After(f.data)
  }

  /** What one read changes for a receiver that has written `written` so far. */
  lemma BodyStep(link: Link, s: seq<byte>, order: u32, id: byte, written: seq<byte>)
    ensures var body := RecvBody(link, s, order, id).After(written);
      match ReadFrame(link, s, order, id)
      case Rejected => body.Cut?
      case Accepted(f, rest) =>
        if f.data == [] then body == Whole(written, rest)
        else body == RecvBody(link.Next(), rest, Succ(order), id).After(written + f.data)
  {
    hide ReadFrame;
    match ReadFrame(link, s, order, id)
    case Rejected =>
    case Accepted(f, rest) =>
      if f.data == [] {
        assert written + [] == written;
      } else {
        RecvBody(link.Next(), rest, Succ(order), id).AfterTwice(written, f.data);
      }
  }

  /** The frames accepted up to the first rejection or end-of-transmission frame; never more than
      the counter has left before it rolls over. */
  function AcceptedFrames(link: Link, s: seq<byte>, order: u32, id: byte): (fs: seq<Frame>)
    ensures order + |fs| <= ROLLOVER - 1
    decreases ROLLOVER - order
  {
    hide ReadFrame;
    match ReadFrame(link, s, order, id)
    case Rejected => []
    case Accepted(f, rest) =>
      if f.data == [] then [f]
      else [f] + AcceptedFrames(link.Next(), rest, Succ(order), id)
  }

  predicate OnlyLastEmpty(fs: seq<Frame>) {
    forall j :: 0 <= j < |fs| - 1 ==> fs[j].data != []
  }

  lemma {:induction false} EmptyIsLast(link: Link, s: seq<byte>, order: u32, id: byte)
    ensures OnlyLastEmpty(AcceptedFrames(link, s, order, id))
    decreases ROLLOVER - order
  {
    hide ReadFrame;
    match ReadFrame(link, s, order, id)
    case Rejected =>
    case Accepted(f, rest) =>
      if f.data != [] {
        EmptyIsLast(link.Next(), rest, Succ(order), id);
        var fs, tail := AcceptedFrames(link, s, order, id), AcceptedFrames(link.Next(), rest, Succ(order), id);
        assert fs == [f] + tail;
        forall j | 0 <= j < |fs| - 1 ensures fs[j].data != [] {
          assert j > 0 ==> fs[j] == tail[j - 1];
        }
      }
  }

  lemma {:induction false} WrittenIsAccepted(link: Link, s: seq<byte>, order: u32, id: byte)
    ensures var b := RecvBody(link, s, order, id);
      Payloads(AcceptedFrames(link, s, order, id)) == if b.Cut? then b.written else b.content
    decreases ROLLOVER - order
  {
    hide ReadFrame;
    match ReadFrame(link, s, order, id)
    case Rejected =>
    case Accepted(f, rest) =>
      if f.data != [] {
        var fs := AcceptedFrames(link.Next(), rest, Succ(order), id);
        WrittenIsAccepted(link.Next(), rest, Succ(order), id);
        assert ([f] + fs)[1..] == fs;
      }
  }

  /** Data frames with a payload, numbered from `order`, and an empty end-of-transmission frame below the rollover. */
  predicate BodyTranscript(link: Link, fs: seq<Frame>, order: u32) {
    && fs != []
    && AllWellFormed(link, fs)
    && order + |fs| <= ROLLOVER - 1
    && (forall i :: 0 <= i < |fs| - 1 ==> fs[i].data != [])
    && fs[|fs| - 1].data == [] && IsEot(fs[|fs| - 1].flags)
  }

  predicate EncodesBody(link: Link, fs: seq<Frame>, s: seq<byte>, order: u32, id: byte, content: seq<byte>,
      rest: seq<byte>) {
    && BodyTranscript(link, fs, order)
    && s == Stream(link, fs, order, id) + rest
    && content == Payloads(fs)
  }

  lemma EncodesCons(link: Link, f: Frame, fs: seq<Frame>, s: seq<byte>, order: u32, id: byte, content: seq<byte>,
      rest: seq<byte>)
    requires Acceptable(link, f, order) && f.data != []
    requires EncodesBody(link.Next(), fs, s, Succ(order), id, content, rest)
    ensures EncodesBody(link, [f] + fs, Wire(link, f, order, id) + s, order, id, f.data + content, rest)
  {
    hide Wire, Stream, IsEot;
    StreamCons(link, f, fs, order, id);
    assert ([f] + fs)[1..] == fs;
    var w, t := Wire(link, f, order, id), Stream(link.Next(), fs, Succ(order), id);
    assert w + (t + rest) == w + t + rest;
  }

  lemma {:induction false} WholeBodyIsTranscript(link: Link, s: seq<byte>, order: u32, id: byte)
    requires RecvBody(link, s, order, id).Whole?
    ensures var b := RecvBody(link, s, order, id);
      EncodesBody(link, AcceptedFrames(link, s, order, id), s, order, id, b.content, b.rest)
    decreases ROLLOVER - order
  {
    hide ReadFrame, Wire, Stream, IsEot, BodyTranscript;
    var Accepted(f, rest) := ReadFrame(link, s, order, id);
    AcceptedWasSent(link, s, f, rest, order, id);
    if f.data != [] {
      hide EncodesBody;
      WholeBodyIsTranscript(link.Next(), rest, Succ(order), id);
      var b := RecvBody(link.Next(), rest, Succ(order), id);
      EncodesCons(link, f, AcceptedFrames(link.Next(), rest, Succ(order), id), rest, order, id, b.content, b.rest);
    } else {
      EotAlone(link, f, order, id, rest);
    }
  }

  lemma EotAlone(link: Link, f: Frame, order: u32, id: byte, rest: seq<byte>)
    requires Acceptable(link, f, order) && f.data == []
    ensures EncodesBody(link, [f], Wire(link, f, order, id) + rest, order, id, [], rest)
  {
    hide Wire, IsEot;
    StreamCons(link, f, [], order, id);
    assert [f] + [] == [f] && [f][1..] == [];
    assert Payloads([f]) == [] && Stream(link, [f], order, id) == Wire(link, f, order, id);
  }

  lemma {:induction false} TranscriptIsWholeBody(link: Link, fs: seq<Frame>, order: u32, id: byte, rest: seq<byte>)
    requires BodyTranscript(link, fs, order)
    ensures RecvBody(link, Stream(link, fs, order, id) + rest, order, id) == Whole(Payloads(fs), rest)
    ensures AcceptedFrames(link, Stream(link, fs, order, id) + rest, order, id) == fs
    decreases fs
  {
    hide ReadFrame, Wire, IsEot;
    var f, tail := fs[0], Stream(link.Next(), fs[1..], Succ(order), id);
    assert Stream(link, fs, order, id) + rest == Wire(link, f, order, id) + (tail + rest);
    ReadsWhatWasSent(link, f, tail + rest, order, id);
    if |fs| > 1 {
      TranscriptIsWholeBody(link.Next(), fs[1..], Succ(order), id, rest);
      assert fs == [f] + fs[1..];
    } else {
      assert fs[1..] == [] && fs == [f];
    }
  }

  // ---------- a message ----------

  /** The text shown for a message, up to its first zero byte. Only frame number 1 is read; `None` stands for
      no frame, and an end-of-transmission frame in its place is taken without any text of its own. */
  datatype Text = NoFrame | NoText | Text(shown: seq<byte>)

  function RecvMessage(link: Link, s: seq<byte>, id: byte): Text {
    match ReadFrame(link, s, 1, id)
    case Rejected => NoFrame
    case Accepted(f, rest) => if f.data == [] then NoText else Text(CString(f.data))
  }

  /** A message of one to BlockSize bytes is shown unchanged exactly when it has no zero byte. */
  lemma MessageDelivered(link: Link, f: Frame, id: byte, rest: seq<byte>)
    requires WellFormed(link, f) && f.data != []
    ensures RecvMessage(link, Wire(link, f, 1, id) + rest, id) == Text(CString(f.data))
    ensures CString(f.data) == f.data <==> 0 !in f.data
  {
    hide ReadFrame, Wire;
    ReadsWhatWasSent(link, f, rest, 1, id);
    CStringTerminated(f.data, []);
  }

  /** On every stream: which text is shown. */
  lemma TextIff(link: Link, s: seq<byte>, id: byte, text: seq<byte>)
    ensures RecvMessage(link, s, id) == Text(text)
            <==> exists f, rest :: WellFormed(link, f) && f.data != [] && text == CString(f.data)
                                   && s == Wire(link, f, 1, id) + rest
  {
    hide ReadFrame, Wire, CString, WellFormed, IsEot;
    if RecvMessage(link, s, id) == Text(text) {
      var Accepted(f, rest) := ReadFrame(link, s, 1, id);
      AcceptedWasSent(link, s, f, rest, 1, id);
    }
    if f, rest :| WellFormed(link, f) && f.data != [] && text == CString(f.data)
                  && s == Wire(link, f, 1, id) + rest {
      ReadsWhatWasSent(link, f, rest, 1, id);
    }
  }

  // ---------- a whole file transfer ----------

  datatype FileOutcome =
    | Refused
    | Aborted(name: seq<byte>, written: seq<byte>)
    | Stored(name: seq<byte>, content: seq<byte>, rest: seq<byte>)

  function RecvFile(link: Link, s: seq<byte>, id: byte): FileOutcome {
    match ReadFrame(link, s, 0, id)
    case Rejected => Refused
    case Accepted(f, rest) =>
      if !(0 < |f.data| <= MAX_FILENAME_LENGTH) then Refused
      else
        match RecvBody(link.Next(), rest, 1, id)
        case Cut(written) => Aborted(f.data, written)
        case Whole(content, rest') => Stored(f.data, content, rest')
  }

  predicate FileTranscript(link: Link, fs: seq<Frame>) {
    && fs != []
    && WellFormed(link, fs[0]) && 0 < |fs[0].data| <= MAX_FILENAME_LENGTH
    && BodyTranscript(link.Next(), fs[1..], 1)
  }

  predicate EncodesFile(link: Link, fs: seq<Frame>, s: seq<byte>, id: byte, name: seq<byte>, content: seq<byte>,
      rest: seq<byte>) {
    && FileTranscript(link, fs)
    && AllWellFormed(link, fs)
    && s == Stream(link, fs, 0, id) + rest
    && name == fs[0].data
    && content == Payloads(fs[1..])
  }

  lemma StoredWasEncoded(link: Link, s: seq<byte>, id: byte)
    requires RecvFile(link, s, id).Stored?
    ensures var r := RecvFile(link, s, id);
      exists fs :: EncodesFile(link, fs, s, id, r.name, r.content, r.rest)
  {
    hide ReadFrame, Wire, Stream, IsEot, BodyTranscript, RecvBody, AcceptedFrames, Payloads;
    var Accepted(f, tail) := ReadFrame(link, s, 0, id);
    var Stored(name, content, rest) := RecvFile(link, s, id);
    AcceptedWasSent(link, s, f, tail, 0, id);
    WholeBodyIsTranscript(link.Next(), tail, 1, id);
    var body := AcceptedFrames(link.Next(), tail, 1, id);
    assert BodyTranscript(link.Next(), body, 1);
    BodyWellFormed(link.Next(), body, 1);
    var fs := [f] + body;
    StreamCons(link, f, body, 0, id);
    var w, t := Wire(link, f, 0, id), Stream(link.Next(), body, 1, id);
    assert fs[1..] == body;
    assert s == w + (t + rest) == w + t + rest;
    assert EncodesFile(link, fs, s, id, name, content, rest);
  }

  lemma BodyWellFormed(link: Link, fs: seq<Frame>, order: u32)
    requires BodyTranscript(link, fs, order)
    ensures AllWellFormed(link, fs)
  {
  }

  /** A file is stored exactly when the stream begins with a name frame 0 of 1 to 128 bytes, data frames
      1..k with payload and an empty end-of-transmission frame k+1 <= 2^32 - 2; what is stored is the payload
      in order, and what follows the transcript is left unread. */
  lemma StoredIff(link: Link, s: seq<byte>, id: byte, name: seq<byte>, content: seq<byte>, rest: seq<byte>)
    ensures RecvFile(link, s, id) == Stored(name, content, rest)
            <==> exists fs :: EncodesFile(link, fs, s, id, name, content, rest)
  {
    hide ReadFrame, Wire, Stream, IsEot, FileTranscript;
    if RecvFile(link, s, id) == Stored(name, content, rest) {
      StoredWasEncoded(link, s, id);
    }
    if fs :| EncodesFile(link, fs, s, id, name, content, rest) {
      TranscriptIsStored(link, fs, id, rest);
    }
  }

  lemma TranscriptIsStored(link: Link, fs: seq<Frame>, id: byte, rest: seq<byte>)
    requires FileTranscript(link, fs) && AllWellFormed(link, fs)
    ensures RecvFile(link, Stream(link, fs, 0, id) + rest, id) == Stored(fs[0].data, Payloads(fs[1..]), rest)
  {
    hide ReadFrame, Wire, IsEot;
    var tail := Stream(link.Next(), fs[1..], 1, id);
    assert Stream(link, fs, 0, id) + rest == Wire(link, fs[0], 0, id) + (tail + rest);
    ReadsWhatWasSent(link, fs[0], tail + rest, 0, id);
    TranscriptIsWholeBody(link.Next(), fs[1..], 1, id, rest);
  }

  /** The decomposition of a stream into a transcript and a remainder is unique. */
  lemma TranscriptUnique(link: Link, fs: seq<Frame>, gs: seq<Frame>, id: byte, rest: seq<byte>, rest': seq<byte>)
    requires FileTranscript(link, fs) && AllWellFormed(link, fs)
    requires FileTranscript(link, gs) && AllWellFormed(link, gs)
    requires Stream(link, fs, 0, id) + rest == Stream(link, gs, 0, id) + rest'
    ensures fs == gs && rest == rest'
  {
    hide ReadFrame, Wire, IsEot;
    var s := Stream(link, fs, 0, id) + rest;
    var t, u := Stream(link.Next(), fs[1..], 1, id), Stream(link.Next(), gs[1..], 1, id);
    assert s == Wire(link, fs[0], 0, id) + (t + rest);
    assert s == Wire(link, gs[0], 0, id) + (u + rest');
    ReadsWhatWasSent(link, fs[0], t + rest, 0, id);
    ReadsWhatWasSent(link, gs[0], u + rest', 0, id);
    TranscriptIsWholeBody(link.Next(), fs[1..], 1, id, rest);
    TranscriptIsWholeBody(link.Next(), gs[1..], 1, id, rest');
    assert fs == [fs[0]] + fs[1..] && gs == [gs[0]] + gs[1..];
  }
}
