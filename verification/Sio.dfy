/** Blocking socket I/O with retries: namespace `sio` of src/xchange.hpp. */
module Sio {
  import opened Arithmetic
  import opened Bytes
  import Frames

  const MAX_RESEND := 15
  const MAX_SEND_RETRY_ON_ERR := 3
  const MAX_READ_RETRY_ON_ERR := 3
  const THREAD_PAUSE_TIME_MS := 50
  const SOCKET_RCVTIMEO_SEC := 5

  /** What one system call reports. `Done` with no bytes is end of stream for `recv`. */
  datatype Outcome = Done(bytes: seq<byte>) | Transient | Fatal

  /** What the kernel answers to one read or write: how many bytes it is ready to move, or that it fails. */
  datatype Answer = Moves(count: nat) | Fails(transient: bool)

  /** All answers of the kernel for one socket, call by call, and the free size of the send queue before each write.
      The program can neither choose nor change them. */
  datatype Kernel = Kernel(read: nat -> Answer, write: nat -> Answer, queue: nat -> nat) {
    /** Whether one of the reads from number `lo` up to, but not including, `hi` fails. */
    predicate ReadFails(lo: nat, hi: nat) { lo < hi && (read(hi - 1).Fails? || ReadFails(lo, hi - 1)) }

    lemma {:induction false} ReadFailsSplit(lo: nat, mid: nat, hi: nat)
      requires lo <= mid <= hi
      ensures ReadFails(lo, hi) <==> ReadFails(lo, mid) || ReadFails(mid, hi)
      decreases hi
    {
      if mid < hi {
        ReadFailsSplit(lo, mid, hi - 1);
      }
    }

    /** What write number `i` returns when it is given `n` bytes. */
    function Written(i: nat, n: nat): (ret: int)
      ensures -1 <= ret <= n
    {
      match write(i)
      case Moves(count) => Min(count, n)
      case Fails(_) => -1
    }

    // ---------- writing `n` bytes, starting with write number `from` ----------

    /** At most this much at once. */
    function AtOnce(from: nat, n: nat): nat { Min(n, queue(from)) }

    /** The bytes sent by `k` writes, each of which is given what is left, up to the portion. */
    function Sent(from: nat, n: nat, k: nat): (sent: nat)
      ensures sent <= n
    {
      if k == 0 then 0
      else
        var sent := Sent(from, n, k - 1);
        var ret := Written(from + k - 1, Min(AtOnce(from, n), n - sent));
        if ret > 0 then sent + ret else sent
    }

    /** How many of the first `k` writes fail for the time being. */
    function Transients(from: nat, k: nat): (errors: nat)
      ensures errors <= k
    {
      if k == 0 then 0 else Transients(from, k - 1) + if write(from + k - 1) == Fails(true) then 1 else 0
    }

    /** Whether one of them fails for good. */
    predicate Breaks(from: nat, k: nat) { k > 0 && (write(from + k - 1) == Fails(false) || Breaks(from, k - 1)) }

    /** After `k` writes: one has failed for good, more than 3 have failed for the time being, or 16 others have not
        been enough. */
    predicate GivesUp(from: nat, n: nat, k: nat) {
      Breaks(from, k) || Transients(from, k) > 3 || (Sent(from, n, k) < n && k - Transients(from, k) >= 16)
    }

    /** After `k` writes, the last of which has not failed, everything is out. */
    predicate Completes(from: nat, n: nat, k: nat) { k > 0 && write(from + k - 1).Moves? && Sent(from, n, k) == n }

    ghost predicate NotYet(from: nat, n: nat, k: nat) {
      forall j :: 0 <= j < k ==> !GivesUp(from, n, j) && !Completes(from, n, j)
    }

    /** It takes `k` writes to come to an end. */
    ghost predicate EndsAfter(from: nat, n: nat, k: nat) {
      k > 0 && NotYet(from, n, k) && (GivesUp(from, n, k) || Completes(from, n, k))
    }

    /** No buffer of the size of a frame or less is ever given up. */
    ghost predicate Helpful() {
      forall from: nat, n: nat, k: nat | n <= Frames.FRAME && EndsAfter(from, n, k) :: !GivesUp(from, n, k)
    }

    lemma NotHelpful(from: nat, n: nat, k: nat)
      requires EndsAfter(from, n, k) && GivesUp(from, n, k)
      ensures n <= Frames.FRAME ==> !Helpful()
    {
      hide EndsAfter, GivesUp;
    }

    lemma NotYetNext(from: nat, n: nat, k: nat)
      requires NotYet(from, n, k) && !GivesUp(from, n, k) && !Completes(from, n, k)
      ensures NotYet(from, n, k + 1)
    {
    }

    /** It never takes more than 19 writes, everything is out exactly if nothing is given up, and how it ends is
        determined. */
    lemma EndsSoon(from: nat, n: nat, k: nat)
      requires EndsAfter(from, n, k)
      ensures 0 < k <= 19
      ensures !GivesUp(from, n, k) <==> Completes(from, n, k)
      ensures Completes(from, n, k) ==> Sent(from, n, k) == n
      ensures GivesUp(from, n, k) && n > 0 ==> Sent(from, n, k) < n
      ensures forall j :: EndsAfter(from, n, j) ==> j == k
    {
      var j := k - 1;
      assert !GivesUp(from, n, j) && !Completes(from, n, j);
      WriteStep(from, n, j);
      if n > 0 {
        Unfinished(from, n, k, j);
      } else {
        AllTransient(from, k, j);
      }
      hide Sent, Transients, Breaks;
    }

    lemma WriteStep(from: nat, n: nat, k: nat)
      ensures var ret := Written(from + k, Min(AtOnce(from, n), n - Sent(from, n, k)));
        && Sent(from, n, k + 1) == Sent(from, n, k) + (if ret > 0 then ret else 0)
        && (ret < 0 <==> write(from + k).Fails?)
        && Transients(from, k + 1) == Transients(from, k) + (if write(from + k) == Fails(true) then 1 else 0)
        && (Breaks(from, k + 1) <==> write(from + k) == Fails(false) || Breaks(from, k))
    {
    }

    lemma {:induction false} Unfinished(from: nat, n: nat, k: nat, j: nat)
      requires NotYet(from, n, k) && n > 0 && j < k
      ensures Sent(from, n, j) < n
    {
      if j > 0 {
        Unfinished(from, n, k, j - 1);
        assert !Completes(from, n, j);
      }
    }

    lemma {:induction false} AllTransient(from: nat, k: nat, j: nat)
      requires NotYet(from, 0, k) && j < k
      ensures Transients(from, j) == j
    {
      if j > 0 {
        AllTransient(from, k, j - 1);
        assert !Completes(from, 0, j) && !GivesUp(from, 0, j);
      }
    }

    /** After `k` writes: `sent` bytes are out, `errors` writes have failed for the time being and `others` have not
        failed, and there is no end yet. */
    ghost predicate Underway(from: nat, n: nat, k: nat, sent: nat, errors: nat, others: nat) {
      && sent == Sent(from, n, k) && errors == Transients(from, k) && !Breaks(from, k) && NotYet(from, n, k)
      && k == errors + others && errors <= 4 && others <= 16 && (sent < n || (n == 0 && others == 0))
    }

    /** Writing has come to an end after `k` writes with `sent` bytes out: given up, or complete. */
    ghost predicate Ended(from: nat, n: nat, k: nat, sent: nat, givenUp: bool) {
      && 0 < k <= 19 && EndsAfter(from, n, k) && sent == Sent(from, n, k)
      && (givenUp <==> GivesUp(from, n, k)) && (!givenUp <==> Completes(from, n, k))
      && (if givenUp then n > 0 ==> sent < n else sent == n)
      && (givenUp && n <= Frames.FRAME ==> !Helpful())
    }

    lemma EndedIs(from: nat, n: nat, k: nat)
      requires EndsAfter(from, n, k)
      ensures Ended(from, n, k, Sent(from, n, k), GivesUp(from, n, k))
    {
      hide Sent, GivesUp, Completes, EndsAfter, Helpful;
      EndsSoon(from, n, k);
      if GivesUp(from, n, k) {
        NotHelpful(from, n, k);
      }
    }

    lemma UnderwayStart(from: nat, n: nat)
      ensures Underway(from, n, 0, 0, 0, 0)
    {
    }

    lemma UnderwayStep(from: nat, n: nat, k: nat, sent: nat, errors: nat, others: nat)
      requires Underway(from, n, k, sent, errors, others) && errors <= 3 && others < 16
      ensures var ret := Written(from + k, Min(AtOnce(from, n), n - sent));
        match write(from + k)
        case Fails(transient) =>
          if transient then ret < 0 && Underway(from, n, k + 1, sent, errors + 1, others)
          else ret < 0 && Ended(from, n, k + 1, sent, true)
        case Moves(_) =>
          && ret >= 0
          && if sent + ret < n then Underway(from, n, k + 1, sent + ret, errors, others + 1)
             else Ended(from, n, k + 1, n, false) && sent + ret == n
    {
      hide Sent, Transients, Breaks, Helpful, Ended;
      AllOut(from, n, k);
      WriteStep(from, n, k);
      NotYetNext(from, n, k);
      if EndsAfter(from, n, k + 1) {
        EndsSoon(from, n, k + 1);
        EndedIs(from, n, k + 1);
      }
    }

    lemma AllOut(from: nat, n: nat, k: nat)
      ensures Completes(from, n, k) ==> Sent(from, n, k) == n && Transients(from, k) < k
    {
    }

    lemma UnderwayEnd(from: nat, n: nat, k: nat, sent: nat, errors: nat, others: nat)
      requires Underway(from, n, k, sent, errors, others) && (errors > 3 || others >= 16)
      ensures Ended(from, n, k, sent, true)
    {
      hide Ended;
      EndedIs(from, n, k);
    }

    /** Every write takes all it is given. */
    ghost predicate TakesAll(from: nat, n: nat, k: nat) {
      forall j :: 0 <= j < k ==>
        Written(from + j, Min(AtOnce(from, n), n - Sent(from, n, j))) == Min(AtOnce(from, n), n - Sent(from, n, j))
    }

    /** Then nothing is given up if and only if 16 portions are enough. */
    lemma FullWrites(from: nat, n: nat, k: nat)
      requires EndsAfter(from, n, k) && TakesAll(from, n, k) && n > 0 && AtOnce(from, n) > 0
      ensures GivesUp(from, n, k) <==> CeilDiv(n, AtOnce(from, n)) > 16
    {
      hide CeilDiv, OnSchedule, Sent;
      Scheduled(from, n, k - 1);
      Unfinished(from, n, k, k - 1);
      assert !GivesUp(from, n, k - 1);
      Scheduled(from, n, k);
      ScheduleMeans(n, AtOnce(from, n), k, Sent(from, n, k));
      EndsSoon(from, n, k);
    }

    lemma {:induction false} Scheduled(from: nat, n: nat, k: nat)
      requires NotYet(from, n, k) && TakesAll(from, n, k) && n > 0
      ensures Transients(from, k) == 0 && !Breaks(from, k) && OnSchedule(n, AtOnce(from, n), k, Sent(from, n, k))
    {
      hide CeilDiv, OnSchedule;
      if k == 0 {
        ScheduleStart(n, AtOnce(from, n));
      } else {
        Scheduled(from, n, k - 1);
        Unfinished(from, n, k, k - 1);
        var sent := Sent(from, n, k - 1);
        ScheduleStep(n, AtOnce(from, n), k - 1, sent, Min(AtOnce(from, n), n - sent));
      }
    }

    /** For instance, a kernel that takes every frame whole and always has room for 92 bytes. */
    lemma LavishIsHelpful()
      requires forall i :: write(i).Moves? && write(i).count >= 1460
      requires forall i :: queue(i) >= 92
      ensures Helpful()
    {
      hide CeilDiv, EndsAfter, TakesAll, Sent, Transients, Breaks;
      forall from: nat, n: nat, k: nat | n <= Frames.FRAME && EndsAfter(from, n, k) ensures !GivesUp(from, n, k) {
        NothingFails(from, n, k);
        if n > 0 {
          FullWrites(from, n, k);
          FewPortions(n, AtOnce(from, n));
        }
      }
    }

    lemma {:induction false} NothingFails(from: nat, n: nat, k: nat)
      requires forall i :: write(i).Moves? && write(i).count >= n
      ensures Transients(from, k) == 0 && !Breaks(from, k) && TakesAll(from, n, k)
    {
      hide Sent;
      if k > 0 {
        NothingFails(from, n, k - 1);
      }
    }
  }

  /** A connected socket. The kernel decides how much each call moves and whether it fails. */
  class Socket {
    const kernel: Kernel
    /** The system calls made so far. */
    var readCalls: nat
    var writeCalls: nat
    /** Everything the peer sends before end of stream that has not been read yet. */
    var inbound: seq<byte>
    /** Everything handed to the kernel so far. */
    var outbound: seq<byte>
    /** Whether a read has reported end of stream; from then on every read does, or fails for good. */
    var ended: bool
    /** Whether some read failed other than by end of stream. */
    ghost var faulted: bool
    /** Whether some write has been given up. */
    ghost var stuck: bool

    /** Reads and writes fail on account of the kernel only. */
    ghost predicate Valid()
      reads this
    {
      && (ended ==> inbound == [])
      && (faulted <==> kernel.ReadFails(0, readCalls))
      && (stuck ==> !kernel.Helpful())
    }

    /** Whether all reading and writing has worked. */
    ghost predicate Clean() reads this { !faulted && !stuck }

    /** What has been handed to the kernel since that was `out0`. */
    ghost function Since(out0: seq<byte>): seq<byte>
      reads this
    {
      if |out0| <= |outbound| then outbound[|out0|..] else []
    }

    constructor (kernel: Kernel, stream: seq<byte>)
      ensures Valid() && this.kernel == kernel && inbound == stream && outbound == [] && !faulted && !stuck
    {
      this.kernel, readCalls, writeCalls := kernel, 0, 0;
      inbound, outbound, ended, faulted, stuck := stream, [], false, false, false;
    }

    /** `recv` with MSG_WAITALL; `peek` stands for MSG_PEEK, which is short only at end of stream. */
    method Recv(n: nat, peek: bool) returns (res: Outcome)
      requires Valid() && n > 0
      modifies this`inbound, this`ended, this`faulted, this`readCalls
      ensures Valid() && readCalls == old(readCalls) + 1
      ensures res.Done? <==> kernel.read(old(readCalls)).Moves?
      ensures faulted == (old(faulted) || !res.Done?)
      ensures res.Done? ==> |res.bytes| <= n && res.bytes <= old(inbound)
      ensures res.Done? && res.bytes == [] ==> old(inbound) == [] && ended
      ensures res.Done? && res.bytes != [] ==> !old(ended)
      ensures res.Done? && peek ==> |res.bytes| == Min(n, |inbound|)
      ensures inbound == if res.Done? && !peek then old(inbound)[|res.bytes|..] else old(inbound)
      ensures res.Transient? <==> kernel.read(old(readCalls)) == Fails(true) && !old(ended)
      ensures !(res.Done? && res.bytes == []) ==> ended == old(ended)
    {
      hide Kernel.Helpful;
      var answer := kernel.read(readCalls);
      readCalls := readCalls + 1;
      match answer {
        case Fails(transient) =>
          faulted := true;
          res := if transient && !ended then Transient else Fatal;
        case Moves(count) =>
          var k := count;
          if peek || !(1 <= k <= Min(n, |inbound|)) {
            k := Min(n, |inbound|);
          }
          ended := ended || k == 0;
          res := Done(inbound[..k]);
          if !peek {
            inbound := inbound[k..];
          }
      }
    }

    /** `write`. */
    method Write(data: seq<byte>) returns (ret: int, transient: bool)
      modifies this`outbound, this`writeCalls
      ensures writeCalls == old(writeCalls) + 1
      ensures ret == kernel.Written(old(writeCalls), |data|)
      ensures transient == (kernel.write(old(writeCalls)) == Fails(true))
      ensures outbound == if ret > 0 then old(outbound) + data[..ret] else old(outbound)
    {
      var answer := kernel.write(writeCalls);
      writeCalls := writeCalls + 1;
      ret, transient := -1, false;
      match answer {
        case Fails(temporary) => transient := temporary;
        case Moves(count) =>
          ret := Min(count, |data|);
          outbound := outbound + data[..ret];
      }
    }

    /** Receives at most `n` bytes, `chunk`, to offset `at` of `buff`; their number, or -1 for an error. */
    method RecvInto(buff: array<byte>, at: nat, n: nat, peek: bool)
      returns (ret: int, transient: bool, ghost chunk: seq<byte>)
      requires Valid() && n > 0 && at + n <= buff.Length
      modifies this`inbound, this`ended, this`faulted, this`readCalls, buff
      ensures Valid() && readCalls == old(readCalls) + 1 && (ret < 0 <==> kernel.read(old(readCalls)).Fails?)
      ensures -1 <= ret <= n && |chunk| == (if ret < 0 then 0 else ret) && (transient ==> ret < 0 && !old(ended))
      ensures ret == 0 ==> old(inbound) == [] && ended
      ensures ret != 0 ==> ended == old(ended)
      ensures ret > 0 ==> !old(ended)
      ensures old(inbound) == [] ==> ret <= 0 && inbound == []
      ensures Taken(old(inbound), chunk, n, peek, inbound)
      ensures buff[..] == old(buff[..at]) + chunk + old(buff[at + |chunk|..])
    {
      hide Kernel.Helpful, Kernel.ReadFails;
      ret, transient, chunk := -1, false, [];
      var res := Recv(n, peek);
      match res {
        case Transient => transient := true;
        case Fatal =>
        case Done(bytes) =>
          ret, chunk := |bytes|, bytes;
          CopyInto(buff, at, bytes);
      }
    }

    /** One more read on the way, begun with read number `first`; `received` bytes of `stream` are in the buffer. */
    method ReadNext(buff: array<byte>, received: nat, n: nat, peek: bool, ghost stream: seq<byte>, ghost first: nat)
      returns (ret: int, transient: bool)
      requires Valid() && received < n <= buff.Length && Reading(stream, inbound, buff[..received], n, peek)
      requires first <= readCalls && !kernel.ReadFails(first, readCalls)
      modifies this`inbound, this`ended, this`faulted, this`readCalls, buff
      ensures Valid() && readCalls == old(readCalls) + 1 && (ret < 0 <==> kernel.ReadFails(first, readCalls))
      ensures faulted == (old(faulted) || ret < 0) && buff[n..] == old(buff[n..])
      ensures -1 <= ret <= n - received && (transient ==> ret < 0 && !old(ended))
      ensures if ret == 0 then ended else ended == old(ended)
      ensures ret > 0 ==> !old(ended)
      ensures old(inbound) == [] ==> ret <= 0 && inbound == []
      ensures Reading(stream, inbound, buff[..received + if ret < 0 then 0 else ret], n, peek)
    {
      hide Reading, Taken, Kernel.Helpful;
      ghost var before, left, got, chunk := buff[..], inbound, buff[..received], [];
      kernel.ReadFailsSplit(0, first, readCalls);
      ret, transient, chunk := RecvInto(buff, received, n - received, peek);
      kernel.ReadFailsSplit(0, first, readCalls);
      Placed(before, received, chunk, n, buff[..]);
      assert buff[..received + |chunk|] == buff[..][..received + |chunk|] == got + chunk;
      ReadingStep(stream, left, got, n, peek, chunk, inbound);
    }

    /** Reads `n` bytes to the front of `buff`; 0 on success and -1 on failure. */
    method ReadFromSocket(buff: array<byte>, n: nat, peek: bool) returns (err: int)
      requires Valid() && n <= buff.Length
      modifies this`inbound, this`ended, this`faulted, this`readCalls, buff
      ensures Valid() && (err == 0 || err == -1)
      ensures old(faulted) ==> faulted
      ensures buff[n..] == old(buff[n..])
      // success: exactly the next n bytes, and exactly those are consumed
      ensures err == 0 && !peek ==>
                n <= |old(inbound)| && buff[..n] == old(inbound[..n]) && inbound == old(inbound[n..])
      // failure: fewer than n bytes are consumed
      ensures err != 0 && !peek ==>
                && |old(inbound)| - n < |inbound| <= |old(inbound)|
                && inbound == old(inbound)[|old(inbound)| - |inbound|..]
      // any failing read is the end of it; otherwise success depends only on whether the stream is long enough
      ensures old(readCalls) <= readCalls && (kernel.ReadFails(old(readCalls), readCalls) ==> err != 0)
      ensures !peek ==> (err == 0 <==> n <= |old(inbound)| && !kernel.ReadFails(old(readCalls), readCalls))
      ensures !faulted && !peek ==> (err == 0 <==> n <= |old(inbound)|)
      // at end of stream it reads in vain 100 times
      ensures n > 0 && old(inbound) == [] && !kernel.ReadFails(old(readCalls), readCalls) ==>
                readCalls == old(readCalls) + 100
      // peeking consumes nothing; the bytes are right whenever there are enough of them
      ensures peek ==> inbound == old(inbound)
      ensures err == 0 && peek && n <= |inbound| ==> buff[..n] == inbound[..n]
      ensures peek && n <= |inbound| && !kernel.ReadFails(old(readCalls), readCalls) ==> err == 0
      ensures !faulted && peek && n <= |inbound| ==> err == 0
    {
      var retryCounter := 1000 / THREAD_PAUSE_TIME_MS * SOCKET_RCVTIMEO_SEC;
      var remaining: int, received: int := n, 0;
      ghost var stream, first := inbound, readCalls;
      ReadingStart(stream, n, peek);
      assert !kernel.ReadFails(first, first);
      hide Reading, Kernel.Helpful, Kernel.ReadFails;
      while remaining > 0
        invariant Valid() && first <= readCalls && !kernel.ReadFails(first, readCalls) && faulted == old(faulted)
        invariant 0 <= received && 0 <= remaining && received + remaining == n
        invariant 0 < retryCounter <= 100 && (retryCounter < 100 ==> ended)
        invariant buff[n..] == old(buff[n..])
        invariant Reading(stream, inbound, buff[..received], n, peek)
        invariant stream == [] ==> inbound == [] && received == 0 && readCalls == first + (100 - retryCounter)
        decreases remaining + retryCounter
      {
        var retValue, transient := ReadNext(buff, received, n, peek, stream, first);
        if retValue < 0 {
          ReadingEnd(stream, inbound, buff[..received], n, peek);
          if !transient {
            return -1;
          }
          retryCounter := retryCounter + 1;
          if retryCounter > MAX_READ_RETRY_ON_ERR {
            return -1;
          }
        }
        remaining := remaining - retValue;
        received := received + retValue;
        if remaining > 0 && retValue == 0 {
          retryCounter := retryCounter - 1;
        }
        if retryCounter == 0 {
          ReadingEnd(stream, inbound, buff[..received], n, peek);
          return -1;
        }
      }
      ReadingEnd(stream, inbound, buff[..received], n, peek);
      err := 0;
    }

    method GetWriteSocketQueueSize() returns (size: nat)
      ensures size == kernel.queue(writeCalls)
    {
      size := kernel.queue(writeCalls);
    }

    /** Writes at most `k` of the `n` bytes of `buff`, of which `sent` are out since the socket had sent `out0`. */
    method WriteFrom(buff: array<byte>, n: nat, sent: nat, k: nat, ghost out0: seq<byte>) returns (ret: int,
        transient: bool)
      requires sent + k <= n <= buff.Length && outbound == Out(out0, buff[..n], sent)
      modifies this`outbound, this`writeCalls
      ensures writeCalls == old(writeCalls) + 1
      ensures ret == kernel.Written(old(writeCalls), k)
      ensures transient == (kernel.write(old(writeCalls)) == Fails(true))
      ensures outbound == Out(out0, buff[..n], if ret > 0 then sent + ret else sent)
    {
      var portion := buff[sent..sent + k];
      assert portion == buff[..n][sent..sent + k];
      ret, transient := Write(portion);
      if ret > 0 {
        Extend(out0, buff[..n], sent, sent + k, ret);
      }
    }

    /** One more write on the way, begun with write number `from`. */
    method WriteNext(buff: array<byte>, n: nat, sent: nat, k: nat, ghost out0: seq<byte>, ghost from: nat,
        ghost errors: nat, ghost others: nat) returns (ret: int, transient: bool)
      requires sent <= n <= buff.Length && k == Min(kernel.AtOnce(from, n), n - sent) && from <= writeCalls
      requires outbound == Out(out0, buff[..n], sent) && errors <= 3 && others < 16
      requires kernel.Underway(from, n, writeCalls - from, sent, errors, others)
      modifies this`outbound, this`writeCalls
      ensures writeCalls == old(writeCalls) + 1 && ret <= n - sent
      ensures outbound == Out(out0, buff[..n], if ret > 0 then sent + ret else sent)
      ensures ret < 0 ==>
                if transient then kernel.Underway(from, n, writeCalls - from, sent, errors + 1, others)
                else kernel.Ended(from, n, writeCalls - from, sent, true)
      ensures ret >= 0 ==>
                if sent + ret < n then kernel.Underway(from, n, writeCalls - from, sent + ret, errors, others + 1)
                else kernel.Ended(from, n, writeCalls - from, n, false)
    {
      hide Out, Kernel.Underway, Kernel.Ended, Kernel.Written;
      kernel.UnderwayStep(from, n, writeCalls - from, sent, errors, others);
      ret, transient := WriteFrom(buff, n, sent, k, out0);
    }

    /** Writes the first `n` bytes of `buff`; 0 on success and -1 on failure. How many calls that takes, how it ends,
        and how many bytes are out by then is determined by what the kernel answers. */
    method WriteToSocket(buff: array<byte>, n: nat) returns (err: int, ghost sent: nat)
      requires Valid() && n <= buff.Length
      modifies this`outbound, this`stuck, this`writeCalls
      ensures n <= Frames.FRAME ==> Valid()
      ensures err == 0 || err == -1
      ensures old(writeCalls) <= writeCalls
      ensures kernel.Ended(old(writeCalls), n, writeCalls - old(writeCalls), sent, err != 0)
      ensures sent <= n && outbound == Out(old(outbound), buff[..n], sent)
      ensures err == 0 ==> sent == n
      ensures err != 0 && n > 0 ==> sent < n
      ensures stuck == (old(stuck) || err != 0)
    {
      var socketQueueLength := GetWriteSocketQueueSize();
      var writeAtOnce := if n > socketQueueLength then socketQueueLength else n;
      var active, retryCountErr, resendCount := true, 0, 0;
      var bytesSent, bytesRemaining := 0, n;
      ghost var from := writeCalls;
      assert outbound == Out(outbound, buff[..n], 0);
      kernel.UnderwayStart(from, n);
      hide Out, Kernel.Helpful, Kernel.Underway, Kernel.EndsAfter, Kernel.GivesUp, Kernel.Completes, Kernel.Sent,
           Kernel.ReadFails;
      while active
        invariant from <= writeCalls && 0 <= bytesSent && bytesSent + bytesRemaining == n && bytesRemaining >= 0
        invariant outbound == Out(old(outbound), buff[..n], bytesSent) && stuck == old(stuck)
        invariant 0 <= retryCountErr <= MAX_SEND_RETRY_ON_ERR + 1 && 0 <= resendCount <= MAX_RESEND + 1
        invariant active ==> kernel.Underway(from, n, writeCalls - from, bytesSent, retryCountErr, resendCount)
        invariant !active ==> kernel.Ended(from, n, writeCalls - from, bytesSent, false)
        decreases MAX_SEND_RETRY_ON_ERR + MAX_RESEND + 4 - retryCountErr - resendCount, active
      {
        if retryCountErr > MAX_SEND_RETRY_ON_ERR || resendCount > MAX_RESEND {
          kernel.UnderwayEnd(from, n, writeCalls - from, bytesSent, retryCountErr, resendCount);
          stuck := true;
          return -1, bytesSent;
        }
        var bytesToSend := if bytesRemaining >= writeAtOnce then writeAtOnce else bytesRemaining;
        var retVal, transient :=
          WriteNext(buff, n, bytesSent, bytesToSend, old(outbound), from, retryCountErr, resendCount);
        if retVal < 0 {
          if transient {
            retryCountErr := retryCountErr + 1;
            continue;
          }
          stuck := true;
          return -1, bytesSent;
        } else if retVal > 0 {
          bytesSent := bytesSent + retVal;
          bytesRemaining := bytesRemaining - retVal;
        }
        if bytesRemaining == 0 {
          active := false;
        }
        resendCount := resendCount + 1;
      }
      err, sent := 0, bytesSent;
    }
  }

  /** Everything sent once `k` bytes of `data` are out. */
  function Out(out0: seq<byte>, data: seq<byte>, k: nat): seq<byte>
    requires k <= |data|
  {
    out0 + data[..k]
  }

  /** While reading `n` bytes of `stream`: what is in the buffer and what is left make up the stream; a peek leaves
      everything, and gets all it asks for at once if there is enough. */
  ghost predicate Reading(stream: seq<byte>, inbound: seq<byte>, got: seq<byte>, n: nat, peek: bool) {
    if peek then inbound == stream && (n <= |stream| ==> got == [] || got == stream[..n])
    else stream == got + inbound
  }

  lemma ReadingStart(stream: seq<byte>, n: nat, peek: bool)
    ensures Reading(stream, stream, [], n, peek)
  {
  }

  /** A read takes `chunk` off the front of the stream, at most `n` bytes; a peek takes nothing, but sees all it can. */
  ghost predicate Taken(before: seq<byte>, chunk: seq<byte>, n: nat, peek: bool, after: seq<byte>) {
    && chunk <= before && |chunk| <= n
    && (peek && chunk != [] ==> |chunk| == Min(n, |before|))
    && after == if peek then before else before[|chunk|..]
  }

  lemma ReadingStep(stream: seq<byte>, inbound: seq<byte>, got: seq<byte>, n: nat, peek: bool, chunk: seq<byte>,
      after: seq<byte>)
    requires Reading(stream, inbound, got, n, peek) && |got| < n && Taken(inbound, chunk, n - |got|, peek, after)
    ensures Reading(stream, after, got + chunk, n, peek)
  {
  }

  /** What copying `chunk` to offset `at` leaves in the first `at + |chunk|` bytes and from `n` on. */
  lemma Placed(before: seq<byte>, at: nat, chunk: seq<byte>, n: nat, after: seq<byte>)
    requires at + |chunk| <= n <= |before| && after == before[..at] + chunk + before[at + |chunk|..]
    ensures after[..at + |chunk|] == before[..at] + chunk && after[n..] == before[n..]
  {
  }

  lemma ReadingEnd(stream: seq<byte>, inbound: seq<byte>, got: seq<byte>, n: nat, peek: bool)
    requires Reading(stream, inbound, got, n, peek)
    ensures peek ==> inbound == stream && (|got| == n <= |stream| ==> got == stream[..n])
    ensures !peek && |got| == n ==> n <= |stream| && got == stream[..n] && inbound == stream[n..]
    ensures !peek && |got| < n ==>
              |stream| - n < |inbound| <= |stream| && inbound == stream[|stream| - |inbound|..]
  {
  }

  lemma Extend(out: seq<byte>, data: seq<byte>, a: nat, b: nat, k: nat)
    requires a <= b <= |data| && k <= b - a
    ensures out + data[..a] + data[a..b][..k] == out + data[..a + k]
  {
  }

  /** After j full writes: j whole portions are out, or everything is and j portions were needed. */
  ghost predicate OnSchedule(n: nat, w: nat, j: nat, sent: nat) {
    n > 0 && w > 0 ==>
      if sent < n then sent == j * w && CeilDiv(n, w) > j else sent == n && CeilDiv(n, w) == j
  }

  lemma ScheduleStart(n: nat, w: nat)
    ensures OnSchedule(n, w, 0, 0)
  {
  }

  lemma ScheduleMeans(n: nat, w: nat, j: nat, sent: nat)
    requires OnSchedule(n, w, j, sent) && n > 0 && w > 0 && sent <= n
    ensures if sent < n then CeilDiv(n, w) > j else CeilDiv(n, w) == j
  {
  }

  lemma ScheduleStep(n: nat, w: nat, j: nat, sent: nat, portion: nat)
    requires OnSchedule(n, w, j, sent) && sent <= n && portion == Min(w, n - sent)
    requires n > 0 ==> sent < n
    ensures OnSchedule(n, w, j + 1, sent + portion)
  {
    if n > 0 && w > 0 {
      assert (j + 1) * w == j * w + w;
      if sent + portion < n {
        CeilDivAbove(n, w, j + 1);
      } else {
        CeilDivIs(n, w, j + 1);
      }
    }
  }

  function CeilDiv(a: nat, b: nat): nat
    requires b > 0
  {
    (a + b - 1) / b
  }

  lemma CeilDivIs(a: nat, b: nat, q: nat)
    requires b > 0 && q > 0 && (q - 1) * b < a <= q * b
    ensures CeilDiv(a, b) == q
  {
    var r := a + b - 1 - q * b;
    assert q * b == (q - 1) * b + b;
    DivModUnique(a + b - 1, q, r, b);
  }

  lemma FewPortions(n: nat, w: nat)
    requires 0 < n <= 1460 && (w == n || 92 <= w)
    ensures CeilDiv(n, w) <= 16
  {
    assert n + w - 1 < 17 * w;
  }

  lemma CeilDivAbove(a: nat, b: nat, q: nat)
    requires b > 0 && a > q * b
    ensures CeilDiv(a, b) > q
  {
  }
}
