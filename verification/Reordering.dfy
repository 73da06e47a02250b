/** Intact frames of one honest plain transfer that reach the server dropped, duplicated or reordered. */
module Reordering {
  import opened Arithmetic
  import opened Bytes
  import opened Frames
  import opened Reception
  import opened Upload

  predicate Within(fs: seq<Frame>, places: seq<nat>) {
    forall j :: 0 <= j < |places| ==> places[j] < |fs|
  }

  /** The frames at the given places of the honest order. */
  function Pick(fs: seq<Frame>, places: seq<nat>): (gs: seq<Frame>)
    requires Within(fs, places)
    ensures |gs| == |places|
    ensures forall j :: 0 <= j < |gs| ==> gs[j] == fs[places[j]]
  {
    if places == [] then [] else [fs[places[0]]] + Pick(fs, places[1..])
  }

  /** Their bytes: every frame keeps the number it was sent under. */
  function DrawnStream(fs: seq<Frame>, places: seq<nat>, id: byte): seq<byte>
    requires AllWellFormed(Plain, fs)
    requires Within(fs, places)
  {
    if places == [] then []
    else Wire(Plain, fs[places[0]], places[0] % ROLLOVER, id) + DrawnStream(fs, places[1..], id)
  }

  /** The numbers the frames at these places were sent under are order, order + 1, ... */
  predicate Consecutive(places: seq<nat>, order: nat) {
    places == [] || (places[0] % ROLLOVER == order && Consecutive(places[1..], order + 1))
  }

  lemma {:induction false} ConsecutiveAt(places: seq<nat>, order: nat, j: nat)
    requires Consecutive(places, order) && j < |places|
    ensures places[j] % ROLLOVER == order + j
  {
    if j > 0 {
      ConsecutiveAt(places[1..], order + 1, j - 1);
    }
  }

  lemma PlaceAt(fs: seq<Frame>, places: seq<nat>, order: nat, j: nat)
    requires Within(fs, places) && Consecutive(places, order) && j < |places| && |fs| <= ROLLOVER
    ensures places[j] == order + j
  {
    ConsecutiveAt(places, order, j);
    SmallModulo(places[j], ROLLOVER);
  }

  lemma WrongNumber(f: Frame, sent: u32, expected: u32, id: byte, rest: seq<byte>)
    requires WellFormed(Plain, f) && sent != expected
    ensures ReadFrame(Plain, Wire(Plain, f, sent, id) + rest, expected, id) == Rejected
  {
    hide Deframe, Wire;
    DeframeWire(Plain, f, sent, id, rest);
  }

  /** Of the drawn frames the server accepts exactly the first `k`; their numbers are consecutive, and it
      has a whole file only if the last of them ends the transmission. */
  predicate Takes(fs: seq<Frame>, places: seq<nat>, order: u32, id: byte, k: nat)
    requires AllWellFormed(Plain, fs) && Within(fs, places)
  {
    && k <= |places| && order + k <= ROLLOVER - 1
    && Consecutive(places[..k], order)
    && AcceptedFrames(Plain, DrawnStream(fs, places, id), order, id) == Pick(fs, places[..k])
    && (RecvBody(Plain, DrawnStream(fs, places, id), order, id).Whole? ==>
          k > 0 && fs[places[k - 1]].data == [] && IsEot(fs[places[k - 1]].flags))
  }

  lemma TakesNone(fs: seq<Frame>, places: seq<nat>, order: u32, id: byte)
    requires AllWellFormed(Plain, fs) && Within(fs, places)
    requires ReadFrame(Plain, DrawnStream(fs, places, id), order, id).Rejected? && order < ROLLOVER
    ensures Takes(fs, places, order, id, 0)
  {
    hide ReadFrame, DrawnStream;
    assert places[..0] == [];
  }

  lemma TakesEot(fs: seq<Frame>, places: seq<nat>, order: u32, id: byte, f: Frame, rest: seq<byte>)
    requires AllWellFormed(Plain, fs) && Within(fs, places) && places != []
    requires ReadFrame(Plain, DrawnStream(fs, places, id), order, id) == Accepted(f, rest)
    requires f == fs[places[0]] && f.data == [] && IsEot(f.flags) && places[0] % ROLLOVER == order
    ensures Takes(fs, places, order, id, 1)
  {
    hide ReadFrame, DrawnStream, IsEot;
    assert places[..1] == [places[0]] && [places[0]][1..] == [];
    assert Pick(fs, places[..1]) == [f];
    assert Consecutive(places[..1], order);
  }

  lemma TakesMore(fs: seq<Frame>, places: seq<nat>, order: u32, id: byte, k: nat)
    requires AllWellFormed(Plain, fs) && Within(fs, places) && places != [] && Within(fs, places[1..])
    requires var p, rest := places[0], DrawnStream(fs, places[1..], id);
      && ReadFrame(Plain, DrawnStream(fs, places, id), order, id) == Accepted(fs[p], rest)
      && fs[p].data != [] && p % ROLLOVER == order && order + 1 < ROLLOVER
    requires Takes(fs, places[1..], order + 1, id, k)
    ensures Takes(fs, places, order, id, k + 1)
  {
    hide ReadFrame, DrawnStream, IsEot, Pick;
    var tail := places[1..];
    assert places[..k + 1][0] == places[0] && places[..k + 1][1..] == tail[..k];
    PickCons(fs, places[..k + 1]);
    if k > 0 {
      assert tail[k - 1] == places[k];
    }
  }

  lemma {:induction false} AcceptsOnlyInOrder(fs: seq<Frame>, places: seq<nat>, order: u32, id: byte) returns (k: nat)
    requires AllWellFormed(Plain, fs) && Within(fs, places)
    ensures Takes(fs, places, order, id, k)
    decreases places
  {
    hide ReadFrame, Wire, IsEot, Takes;
    k := 0;
    if places == [] {
      NothingToRead(order, id);
      TakesNone(fs, places, order, id);
    } else {
      var p, rest := places[0], DrawnStream(fs, places[1..], id);
      if p % ROLLOVER != order {
        WrongNumber(fs[p], p % ROLLOVER, order, id, rest);
        TakesNone(fs, places, order, id);
      } else {
        ReadsWhatWasSent(Plain, fs[p], rest, order, id);
        if !Acceptable(Plain, fs[p], order) {
          TakesNone(fs, places, order, id);
        } else if fs[p].data == [] {
          k := 1;
          TakesEot(fs, places, order, id, fs[p], rest);
        } else {
          var k' := AcceptsOnlyInOrder(fs, places[1..], order + 1, id);
          k := k' + 1;
          TakesMore(fs, places, order, id, k');
        }
      }
    }
  }

  lemma NothingToRead(order: u32, id: byte)
    ensures ReadFrame(Plain, [], order, id) == Rejected
  {
  }

  // ---------- whole transfers ----------

  /** The one frame of an honest transfer that can end it. */
  lemma OnlyLastEnds(name: seq<byte>, src: seq<byte>, fs: seq<Frame>, i: nat)
    requires Built(Plain, name, src, Progress(Finished, []), fs)
    requires i < |fs| && fs[i].data == [] && IsEot(fs[i].flags)
    ensures i == |fs| - 1
  {
    EotBit();
  }

  /** The frames at the first k + 1 places carry the numbers 0..k. */
  predicate InOrder(places: seq<nat>, k: nat) {
    && k < |places| && k < ROLLOVER - 1
    && Consecutive(places[..k + 1], 0)
  }

  /** What the server has when the drawn frames run out, in terms of the places it accepted. */
  lemma DrawnOutcome(fs: seq<Frame>, places: seq<nat>, id: byte) returns (k: nat)
    requires AllWellFormed(Plain, fs) && Within(fs, places)
    requires !RecvFile(Plain, DrawnStream(fs, places, id), id).Refused?
    ensures InOrder(places, k)
    ensures var r := RecvFile(Plain, DrawnStream(fs, places, id), id);
      && r.name == fs[places[0]].data && 0 < |r.name| <= MAX_FILENAME_LENGTH
      && Payloads(Pick(fs, places[1..k + 1])) == (if r.Stored? then r.content else r.written)
      && OnlyLastEmpty(Pick(fs, places[1..k + 1]))
      && (r.Stored? ==> k > 0 && fs[places[k]].data == [] && IsEot(fs[places[k]].flags))
  {
    hide ReadFrame, Wire, IsEot, RecvBody, Payloads, AcceptedFrames, Pick;
    if places == [] {
      NothingToRead(0, id);
    }
    var p, rest := places[0], DrawnStream(fs, places[1..], id);
    if p % ROLLOVER != 0 {
      WrongNumber(fs[p], p % ROLLOVER, 0, id, rest);
    }
    ReadsWhatWasSent(Plain, fs[p], rest, 0, id);
    k := AcceptsOnlyInOrder(fs, places[1..], 1, id);
    WrittenIsAccepted(Plain, rest, 1, id);
    EmptyIsLast(Plain, rest, 1, id);
    assert places[1..][..k] == places[1..k + 1] == places[..k + 1][1..];
  }

  /** Without rolled-over numbers, in order means at the very same places. */
  lemma InOrderIsPrefix(fs: seq<Frame>, places: seq<nat>, k: nat)
    requires Within(fs, places) && InOrder(places, k) && |fs| <= ROLLOVER
    ensures places[k] == k < |fs| && places[0] == 0
    ensures Pick(fs, places[1..k + 1]) == fs[1..][..k]
  {
    hide Pick, Consecutive;
    var first := places[..k + 1];
    FirstRun(fs, first);
    assert first[1..] == places[1..k + 1];
    assert fs[1..1 + k] == fs[1..][..k];
  }

  lemma FirstRun(fs: seq<Frame>, places: seq<nat>)
    requires Within(fs, places) && places != [] && Consecutive(places, 0) && |places| <= ROLLOVER && |fs| <= ROLLOVER
    ensures places[0] == 0 && places[|places| - 1] == |places| - 1 < |fs|
    ensures Within(fs, places[1..]) && Pick(fs, places[1..]) == fs[1..|places|]
  {
    hide Pick, Consecutive;
    PlaceAt(fs, places, 0, 0);
    PlaceAt(fs, places, 0, |places| - 1);
    ConsecutiveTail(places, 0);
    PickRun(fs, places[1..], 1);
  }

  lemma ConsecutiveTail(places: seq<nat>, order: nat)
    requires places != [] && Consecutive(places, order)
    ensures Consecutive(places[1..], order + 1)
  {
  }

  lemma PickRun(fs: seq<Frame>, places: seq<nat>, from: nat)
    requires Within(fs, places) && from + |places| <= |fs| <= ROLLOVER && Consecutive(places, from)
    ensures Pick(fs, places) == fs[from..from + |places|]
  {
    hide Pick, Consecutive;
    forall j | 0 <= j < |places| ensures places[j] == from + j {
      PlaceAt(fs, places, from, j);
    }
  }

  /** As long as no two frames of the transfer share a number, whatever the server takes from frames dropped,
      duplicated or reordered is a prefix of the honest transfer, and what it stores is the whole source. */
  lemma DrawnFramesAreHarmless(name: seq<byte>, src: seq<byte>, fs: seq<Frame>, places: seq<nat>, id: byte)
    requires Built(Plain, name, src, Progress(Finished, []), fs) && Within(fs, places)
    requires |src| / BLOCK_PLAIN + 2 < ROLLOVER
    ensures match RecvFile(Plain, DrawnStream(fs, places, id), id)
            case Refused => true
            case Aborted(name', written) => name' == name && written <= src
            case Stored(name', content, _) => name' == name && content == src
  {
    hide IsEot, Payloads, DrawnStream, RecvFile, WellFormed, InOrder, Pick;
    FrameCount(Plain, name, src, fs);
    var r := RecvFile(Plain, DrawnStream(fs, places, id), id);
    if !r.Refused? {
      var k := DrawnOutcome(fs, places, id);
      InOrderIsPrefix(fs, places, k);
      PayloadsPrefix(fs[1..], k);
      if r.Stored? {
        OnlyLastEnds(name, src, fs, k);
        assert fs[1..][..k] == fs[1..];
      }
    }
  }

  predicate Spoils(name: seq<byte>, src: seq<byte>, fs: seq<Frame>, places: seq<nat>, id: byte)
    requires AllWellFormed(Plain, fs)
  {
    && Within(fs, places)
    && var r := RecvFile(Plain, DrawnStream(fs, places, id), id);
       r.Stored? && (r.name != name || r.content != src)
  }

  /** Whether frame numbers repeat in a way that lets the server store something else: the
      end-of-transmission frame has rolled over to an acceptable data frame number, and either the name is
      acceptable or the short last block, itself rolled over to number 0, can pass for one. */
  predicate Spoilable(name: seq<byte>, length: nat) {
    var eot := length / 1450 + 2;
    && eot >= 0x1_0000_0000
    && 1 <= eot % 0x1_0000_0000 <= 0xFFFF_FFFE
    && (0 < |name| <= 128 || (eot % 0x1_0000_0000 == 1 && 0 < length % 1450 <= 128))
  }

  lemma SpoiledIsSpoilable(name: seq<byte>, src: seq<byte>, fs: seq<Frame>, places: seq<nat>, id: byte)
    requires Built(Plain, name, src, Progress(Finished, []), fs)
    requires Spoils(name, src, fs, places, id)
    ensures Spoilable(name, |src|)
  {
    hide IsEot, Payloads, DrawnStream, RecvFile, WellFormed, Pick;
    FrameCount(Plain, name, src, fs);
    var k := DrawnOutcome(fs, places, id);
    OnlyLastEnds(name, src, fs, places[k]);
    var eot, p := |fs| - 1, places[0];
    ConsecutiveAt(places[..k + 1], 0, 0);
    ConsecutiveAt(places[..k + 1], 0, k);
    assert eot % ROLLOVER == k && p % ROLLOVER == 0;
    if eot < ROLLOVER {
      DrawnFramesAreHarmless(name, src, fs, places, id);
    } else if !(0 < |name| <= MAX_FILENAME_LENGTH) {
      ActsAsName(name, src, fs, p);
    }
  }

  /** Only the name frame, the short last block and nothing else can pass for a name. */
  lemma ActsAsName(name: seq<byte>, src: seq<byte>, fs: seq<Frame>, p: nat)
    requires Built(Plain, name, src, Progress(Finished, []), fs)
    requires p < |fs| && 0 < |fs[p].data| <= MAX_FILENAME_LENGTH
    ensures p == 0 || p == |fs| - 2
  {
    hide WellFormed, Payloads;
  }

  /** A selection whose places agree with the expected numbers is, byte for byte, an ordinary stream. */
  lemma {:induction false} DrawnIsStream(fs: seq<Frame>, places: seq<nat>, order: u32, id: byte)
    requires AllWellFormed(Plain, fs) && Within(fs, places) && order + |places| < ROLLOVER
    requires Consecutive(places, order)
    ensures AllWellFormed(Plain, Pick(fs, places))
    ensures DrawnStream(fs, places, id) == Stream(Plain, Pick(fs, places), order, id)
    decreases places
  {
    hide Wire, Stream, Pick;
    if places == [] {
      EmptyStream(order, id);
      assert Pick(fs, places) == [];
    } else {
      PickCons(fs, places);
      DrawnIsStream(fs, places[1..], order + 1, id);
      StreamCons(Plain, fs[places[0]], Pick(fs, places[1..]), order, id);
    }
  }

  lemma PickCons(fs: seq<Frame>, places: seq<nat>)
    requires Within(fs, places) && places != []
    ensures Within(fs, places[1..]) && Pick(fs, places) == [fs[places[0]]] + Pick(fs, places[1..])
  {
  }

  lemma EmptyStream(order: u32, id: byte)
    ensures Stream(Plain, [], order, id) == []
  {
  }

  /** Selecting a name frame, the data frames up to the rolled-over number, and the end of transmission. */
  function Shortcut(first: nat, eot: nat): (places: seq<nat>) {
    [first] + seq(eot % ROLLOVER, j requires 0 <= j < eot % ROLLOVER => if j == eot % ROLLOVER - 1 then eot else 1 + j)
  }

  lemma ShortcutSpoils(name: seq<byte>, src: seq<byte>, fs: seq<Frame>, id: byte)
    requires Built(Plain, name, src, Progress(Finished, []), fs)
    requires Spoilable(name, |src|)
    ensures exists places :: Spoils(name, src, fs, places, id)
  {
    hide IsEot, Payloads, DrawnStream, WellFormed, Stream, Pick, FileTranscript, RecvFile;
    FrameCount(Plain, name, src, fs);
    var eot := |fs| - 1;
    var first := if 0 < |name| <= MAX_FILENAME_LENGTH then 0 else eot - 1;
    var places: seq<nat> := Shortcut(first, eot);
    ShortcutTranscript(name, src, fs, first);
    assert places[..|places|] == places;
    DrawnIsStream(fs, places, 0, id);
    var gs := Pick(fs, places);
    TranscriptIsStored(Plain, gs, id, []);
    assert Stream(Plain, gs, 0, id) + [] == Stream(Plain, gs, 0, id);
    ShortContent(gs[1..]);
    assert |src| >= (eot - 2) * BLOCK_PLAIN;
    assert Spoils(name, src, fs, places, id);
  }

  lemma ShortcutPlaces(first: nat, eot: nat)
    requires 1 <= eot % ROLLOVER <= ROLLOVER - 2 && first % ROLLOVER == 0
    ensures var t, places := eot % ROLLOVER, Shortcut(first, eot);
      && InOrder(places, t) && |places| == t + 1
      && places[0] == first && places[t] == eot && forall j :: 1 <= j < t ==> places[j] == j
  {
    var t, places := eot % ROLLOVER, Shortcut(first, eot);
    ConsecutiveIf(places, 0);
    assert places[..t + 1] == places;
  }

  lemma {:induction false} ConsecutiveIf(places: seq<nat>, order: nat)
    requires forall j :: 0 <= j < |places| ==> places[j] % ROLLOVER == order + j
    ensures Consecutive(places, order)
  {
    if places != [] {
      assert forall j :: 0 <= j < |places| - 1 ==> places[1..][j] == places[j + 1];
      ConsecutiveIf(places[1..], order + 1);
    }
  }

  lemma ShortcutTranscript(name: seq<byte>, src: seq<byte>, fs: seq<Frame>, first: nat)
    requires Built(Plain, name, src, Progress(Finished, []), fs)
    requires var eot := |fs| - 1; eot >= ROLLOVER && 1 <= eot % ROLLOVER <= ROLLOVER - 2
    requires first < |fs| && first % ROLLOVER == 0 && 0 < |fs[first].data| <= MAX_FILENAME_LENGTH
    ensures var eot := |fs| - 1; var t, places := eot % ROLLOVER, Shortcut(first, eot);
      && |places| == t + 1 && Within(fs, places) && InOrder(places, t)
      && ShortcutFile(Pick(fs, places), t)
  {
    hide IsEot, Payloads, Pick, Shortcut;
    EotBit();
    var eot := |fs| - 1;
    var t, places := eot % ROLLOVER, Shortcut(first, eot);
    ShortcutPlaces(first, eot);
    forall j | 0 <= j < |places| ensures places[j] < |fs| {
      if 0 < j < t {
        assert places[j] == j;
      }
    }
    ShortcutFrames(name, src, fs, Pick(fs, places), t);
  }

  predicate ShortcutFile(gs: seq<Frame>, t: nat) {
    && |gs| == t + 1 && t > 0
    && FileTranscript(Plain, gs) && AllWellFormed(Plain, gs)
    && (forall i :: 0 <= i < t ==> |gs[1..][i].data| <= BLOCK_PLAIN)
    && gs[1..][t - 1].data == []
  }

  lemma ShortcutFrames(name: seq<byte>, src: seq<byte>, fs: seq<Frame>, gs: seq<Frame>, t: nat)
    requires Built(Plain, name, src, Progress(Finished, []), fs)
    requires 1 <= t <= ROLLOVER - 2 && |gs| == t + 1 && |fs| >= ROLLOVER
    requires WellFormed(Plain, gs[0]) && 0 < |gs[0].data| <= MAX_FILENAME_LENGTH
    requires gs[t] == fs[|fs| - 1] && forall j :: 1 <= j < t ==> gs[j] == fs[j]
    ensures ShortcutFile(gs, t)
  {
    hide IsEot, Payloads;
    EotBit();
    forall j | 0 <= j < t ensures gs[1..][j] == gs[j + 1] && WellFormed(Plain, gs[j + 1]) {
      assert WellFormed(Plain, fs[if j + 1 < t then j + 1 else |fs| - 1]);
    }
    forall j | 0 <= j < t - 1 ensures gs[1..][j].data != [] {
      assert |fs[j + 1].data| == BLOCK_PLAIN;
    }
  }

  lemma ShortContent(fs: seq<Frame>)
    requires fs != [] && fs[|fs| - 1].data == []
    requires forall i :: 0 <= i < |fs| ==> |fs[i].data| <= BLOCK_PLAIN
    ensures |Payloads(fs)| <= (|fs| - 1) * BLOCK_PLAIN
  {
  }

  /** Losing, repeating and reordering intact frames can make the server store something other than the
      source exactly for the sources of 6 TB and more singled out by `Spoilable`. */
  lemma SpoilableIff(name: seq<byte>, src: seq<byte>, fs: seq<Frame>, id: byte)
    requires Built(Plain, name, src, Progress(Finished, []), fs)
    ensures (exists places :: Spoils(name, src, fs, places, id)) <==> Spoilable(name, |src|)
  {
    hide Spoils, Spoilable;
    if places :| Spoils(name, src, fs, places, id) {
      SpoiledIsSpoilable(name, src, fs, places, id);
    }
    if Spoilable(name, |src|) {
      ShortcutSpoils(name, src, fs, id);
    }
  }

  /** The shortest source for which that happens has 2^32 - 1 blocks: its end of transmission is number 1 again. */
  lemma ShortestSpoilable(name: seq<byte>, length: nat)
    requires 0 < |name| <= 128
    ensures Spoilable(name, 0xFFFF_FFFF * 1450)
    ensures length < 0xFFFF_FFFF * 1450 ==> !Spoilable(name, length)
  {
  }

  // ---------- writing something else ----------

  /** The server ends up having written something that is not a beginning of the source. */
  predicate Strays(name: seq<byte>, src: seq<byte>, fs: seq<Frame>, places: seq<nat>, id: byte) {
    && Built(Plain, name, src, Progress(Finished, []), fs)
    && Within(fs, places)
    && match RecvFile(Plain, DrawnStream(fs, places, id), id)
       case Refused => false
       case Aborted(_, written) => !(written <= src)
       case Stored(_, content, _) => !(content <= src)
  }

  /** Some source byte lies behind block number 2^32, which travels under number 1 like block number 0 does, and either
      the name is acceptable or the short last block, itself rolled over to number 0, can pass for one. */
  predicate Strayable(name: seq<byte>, length: nat) {
    && length > 0x1_0000_0000 * 1450
    && (0 < |name| <= 128 || ((length / 1450 + 1) % 0x1_0000_0000 == 0 && 0 < length % 1450 <= 128))
  }

  /** Up to 2^32 blocks, a frame under number j is frame j, or it is empty. */
  lemma RolledOverIsEmpty(name: seq<byte>, src: seq<byte>, fs: seq<Frame>, p: nat, j: nat)
    requires Built(Plain, name, src, Progress(Finished, []), fs) && |src| <= ROLLOVER * BLOCK_PLAIN
    requires p < |fs| && p % ROLLOVER == j >= 1
    ensures p == j || fs[p].data == []
  {
    hide WellFormed, Payloads;
    FrameCount(Plain, name, src, fs);
  }

  lemma PickedAt(name: seq<byte>, src: seq<byte>, fs: seq<Frame>, places: seq<nat>, k: nat, j: nat)
    requires Built(Plain, name, src, Progress(Finished, []), fs) && |src| <= ROLLOVER * BLOCK_PLAIN
    requires Within(fs, places) && InOrder(places, k) && j < k
    ensures var gs := Pick(fs, places[1..k + 1]);
      (j + 1 < |fs| && gs[j] == fs[j + 1]) || gs[j].data == []
  {
    hide Built, Pick, Consecutive;
    assert places[..k + 1][j + 1] == places[j + 1] == places[1..k + 1][j];
    ConsecutiveAt(places[..k + 1], 0, j + 1);
    RolledOverIsEmpty(name, src, fs, places[j + 1], j + 1);
  }

  /** So the frames accepted after the name, but for the last of them, are the first frames after the name. */
  lemma PickStays(name: seq<byte>, src: seq<byte>, fs: seq<Frame>, places: seq<nat>, k: nat)
    requires Built(Plain, name, src, Progress(Finished, []), fs) && |src| <= ROLLOVER * BLOCK_PLAIN
    requires Within(fs, places) && InOrder(places, k) && OnlyLastEmpty(Pick(fs, places[1..k + 1]))
    ensures k > 0 ==> k <= |fs| && Pick(fs, places[1..k + 1])[..k - 1] == fs[1..k]
    ensures k > 0 ==> (k < |fs| && Pick(fs, places[1..k + 1])[k - 1] == fs[k])
                      || Pick(fs, places[1..k + 1])[k - 1].data == []
  {
    hide Built, Pick, Consecutive;
    var gs := Pick(fs, places[1..k + 1]);
    forall j | 0 <= j < k ensures (j + 1 < |fs| && gs[j] == fs[j + 1]) || gs[j].data == [] {
      PickedAt(name, src, fs, places, k, j);
    }
    assert places[0] < |fs|;
    SameRun(gs, fs, k);
  }

  lemma SameRun(gs: seq<Frame>, fs: seq<Frame>, k: nat)
    requires |gs| == k && OnlyLastEmpty(gs) && fs != []
    requires forall j :: 0 <= j < k ==> (j + 1 < |fs| && gs[j] == fs[j + 1]) || gs[j].data == []
    ensures k > 0 ==> k <= |fs| && gs[..k - 1] == fs[1..k]
    ensures k > 0 ==> (k < |fs| && gs[k - 1] == fs[k]) || gs[k - 1].data == []
  {
    if k > 1 {
      assert gs[k - 2].data != [];
    }
    if k > 0 {
      assert gs[..k - 1] == fs[1..k];
    }
  }

  lemma WrittenStays(name: seq<byte>, src: seq<byte>, fs: seq<Frame>, places: seq<nat>, k: nat)
    requires Built(Plain, name, src, Progress(Finished, []), fs) && |src| <= ROLLOVER * BLOCK_PLAIN
    requires Within(fs, places) && InOrder(places, k) && OnlyLastEmpty(Pick(fs, places[1..k + 1]))
    ensures Payloads(Pick(fs, places[1..k + 1])) <= src
  {
    hide WellFormed, Payloads, Pick, Consecutive;
    var gs := Pick(fs, places[1..k + 1]);
    NoPayloads();
    if k > 0 {
      PickStays(name, src, fs, places, k);
      var g := gs[k - 1];
      assert gs == gs[..k - 1] + [g];
      PayloadsAppend(gs[..k - 1], [g]);
      PayloadsOfOne(g);
      PayloadsPrefix(fs[1..], k - 1);
      assert fs[1..][..k - 1] == fs[1..k];
      if g.data != [] {
        PayloadsPrefix(fs[1..], k);
        assert fs[1..][..k] == gs;
      }
    }
  }

  lemma StrayIsStrayable(name: seq<byte>, src: seq<byte>, fs: seq<Frame>, places: seq<nat>, id: byte)
    requires Strays(name, src, fs, places, id)
    ensures Strayable(name, |src|)
  {
    hide IsEot, Payloads, DrawnStream, RecvFile, WellFormed, Pick;
    FrameCount(Plain, name, src, fs);
    var k := DrawnOutcome(fs, places, id);
    if |src| <= ROLLOVER * BLOCK_PLAIN {
      WrittenStays(name, src, fs, places, k);
    }
    ConsecutiveAt(places[..k + 1], 0, 0);
    if !(0 < |name| <= MAX_FILENAME_LENGTH) {
      ActsAsName(name, src, fs, places[0]);
    }
  }

  /** A name and one block, and then nothing: the block is written. */
  lemma NameAndBlock(f: Frame, g: Frame, id: byte)
    requires AllWellFormed(Plain, [f, g]) && 0 < |f.data| <= MAX_FILENAME_LENGTH && g.data != []
    ensures RecvFile(Plain, Stream(Plain, [f, g], 0, id), id) == Aborted(f.data, g.data)
  {
    hide ReadFrame, Wire, Stream, IsEot;
    assert WellFormed(Plain, f) && WellFormed(Plain, g) by {
      assert [f, g][0] == f && [f, g][1] == g;
    }
    StreamCons(Plain, f, [g], 0, id);
    StreamCons(Plain, g, [], 1, id);
    EmptyStream(2, id);
    assert [f] + [g] == [f, g] && [g] + [] == [g];
    ReadsWhatWasSent(Plain, f, Stream(Plain, [g], 1, id), 0, id);
    ReadsWhatWasSent(Plain, g, [], 1, id);
    NothingToRead(2, id);
    assert g.data + [] == g.data;
  }

  /** A source whose first byte differs from the one 2^32 blocks later. */
  lemma SomeStray(name: seq<byte>, length: nat, id: byte) returns (src: seq<byte>, fs: seq<Frame>, places: seq<nat>)
    requires Strayable(name, length) && |name| <= BLOCK_PLAIN
    ensures |src| == length && Strays(name, src, fs, places, id)
  {
    hide IsEot, Payloads, DrawnStream, RecvFile, WellFormed, Pick, Stream;
    var far := ROLLOVER * BLOCK_PLAIN;
    src := seq<byte>(length, i requires 0 <= i < length => if i < far then 0 else 1);
    NothingBuilt(Plain, name, src);
    fs := Completion(Plain, name, src, Progress(Naming, src), []);
    FrameCount(Plain, name, src, fs);
    DataFrameIs(Plain, name, src, fs, ROLLOVER + 1);
    assert fs[ROLLOVER + 1].data != [] && fs[ROLLOVER + 1].data[0] == src[far];
    var first := if 0 < |name| <= MAX_FILENAME_LENGTH then 0 else |fs| - 2;
    places := [first, ROLLOVER + 1];
    ConsecutiveIf(places, 0);
    DrawnIsStream(fs, places, 0, id);
    assert Pick(fs, places) == [fs[first], fs[ROLLOVER + 1]];
    NameAndBlock(fs[first], fs[ROLLOVER + 1], id);
  }

  /** Losing, repeating and reordering intact frames can make the server write something that is not a beginning of the
      source exactly for the names and lengths singled out by `Strayable`, all of more than 6 TB. */
  lemma StrayableIff(name: seq<byte>, length: nat, id: byte)
    requires |name| <= BLOCK_PLAIN
    ensures (exists src, fs, places :: |src| == length && Strays(name, src, fs, places, id))
            <==> Strayable(name, length)
  {
    hide Strays, Strayable;
    if src, fs, places :| |src| == length && Strays(name, src, fs, places, id) {
      StrayIsStrayable(name, src, fs, places, id);
    }
    if Strayable(name, length) {
      var src, fs, places := SomeStray(name, length, id);
    }
  }
}
