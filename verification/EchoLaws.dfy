/** What every run of the echo server keeps. */
module EchoLaws {
  import opened EchoSpec

  /** Echoed is a prefix of received, and the difference is what the buffer holds. */
  ghost predicate Fifo(c: Echo) {
    && WellFormed(c)
    && c.received == c.buff[..c.readPos]
    && c.sent == c.received[..c.writePos]
  }

  /** `c'` comes after reading more on `c`. */
  ghost predicate ReadOn(c: Echo, c': Echo) {
    && Fifo(c') && c.received <= c'.received && c'.sent == c.sent
    && c'.writePos == c.writePos && c'.readPos >= c.readPos
    && c'.interest == c.interest && c'.called == c.called
  }

  lemma AppendFifo(c: Echo, bytes: string)
    requires Fifo(c) && c.readPos + |bytes| <= |c.buff|
    ensures ReadOn(c, Append(c, bytes)) && Append(c, bytes).isOpen == c.isOpen
  {
    var c' := Append(c, bytes);
    assert c'.buff[..c'.readPos] == c.buff[..c.readPos] + bytes;
    assert c'.received[..c.writePos] == c.received[..c.writePos];
  }

  lemma ReadOnTrans(a: Echo, b: Echo, c: Echo)
    requires ReadOn(a, b) && ReadOn(b, c)
    ensures ReadOn(a, c)
  {
  }

  lemma {:induction false} ReadLoopFifo(c: Echo, ins: seq<ReadResult>)
    requires Fifo(c)
    ensures ReadOn(c, ReadLoop(c, ins).c)
    ensures ReadLoop(c, ins).threw ==> ReadLoop(c, ins).c.isOpen == c.isOpen
    decreases |ins|
  {
    hide Append, ReadOn;
    assert ReadOn(c, c) && ReadOn(c, c.(isOpen := false)) by { Unread(c); }
    if ins != [] && ins[0].Data? {
      var got := ins[0].bytes[..Min(|ins[0].bytes|, |c.buff| - c.readPos)];
      if got != "" {
        AppendFifo(c, got);
        var c' := Append(c, got);
        assert Fifo(c') by { ReadOnFifo(c, c'); }
        ReadLoopFifo(c', ins[1..]);
        ReadOnTrans(c, c', ReadLoop(c', ins[1..]).c);
      }
    }
  }

  lemma Unread(c: Echo)
    requires Fifo(c)
    ensures ReadOn(c, c) && ReadOn(c, c.(isOpen := false))
  {
  }

  lemma ReadOnFifo(c: Echo, c': Echo)
    requires ReadOn(c, c')
    ensures Fifo(c')
  {
  }

  lemma AdvanceFifo(c: Echo, n: nat)
    requires Fifo(c) && c.writePos + n <= c.readPos
    ensures Fifo(Advance(c, n))
  {
    var w := c.writePos + n;
    assert c.received[..c.writePos] == c.buff[..c.writePos] && c.received[..w] == c.buff[..w];
    assert c.buff[..w] == c.buff[..c.writePos] + c.buff[c.writePos..w];
  }

  /** The write loop stops with everything sent, or on a full or failing socket. */
  lemma {:induction false} WriteLoopFifo(c: Echo, outs: seq<WriteResult>)
    requires Fifo(c)
    ensures var o := WriteLoop(c, outs);
            && Fifo(o.c) && o.c.received == c.received && c.sent <= o.c.sent && c.writePos <= o.c.writePos
            && o.c.readPos == c.readPos && o.c.isOpen == c.isOpen
            && o.c.interest == c.interest && o.c.called == c.called
            && (!c.isOpen ==> o.c == c && (o.threw <==> c.writePos < c.readPos))
            && (c.writePos == c.readPos ==> o == Outcome(c, false))
    decreases |outs|
  {
    if c.writePos != c.readPos && c.isOpen && outs != [] && outs[0].Took? {
      var n := Min(outs[0].count, c.readPos - c.writePos);
      if n != 0 {
        AdvanceFifo(c, n);
        WriteLoopFifo(Advance(c, n), outs[1..]);
      }
    }
  }

  /** Interest in output agrees with having something to send. */
  ghost predicate InterestFits(c: Echo) {
    && (c.writePos < c.readPos ==> Out in c.interest)
    && (c.called && c.writePos == c.readPos ==> Out !in c.interest)
    && In in c.interest
  }

  lemma HandleReadKeeps(c: Echo, ins: seq<ReadResult>)
    requires Fifo(c)
    ensures var r := HandleRead(c, ins);
            && Fifo(r.c) && c.received <= r.c.received && r.c.sent == c.sent && r.c.called == c.called
            && (!r.threw ==> r.c.interest == c.interest + (if r.c.writePos < r.c.readPos then {Out} else {}))
  {
    hide ReadLoop;
    ReadLoopFifo(c, ins);
    InterestOnly(ReadLoop(c, ins).c);
    assert c.interest + {} == c.interest;
  }

  lemma HandleWriteKeeps(c: Echo, outs: seq<WriteResult>)
    requires Fifo(c)
    ensures var w := HandleWrite(c, outs);
            && Fifo(w.c) && w.c.received == c.received && c.sent <= w.c.sent && w.c.called == c.called
            && (!w.threw ==> w.c.interest == if w.c.writePos == w.c.readPos then c.interest - {Out} else c.interest)
            && w.c.readPos == c.readPos && c.writePos <= w.c.writePos
  {
    hide WriteLoop;
    WriteLoopFifo(c, outs);
    InterestOnly(WriteLoop(c, outs).c);
  }

  /** One handler call: bytes only move forward in order, and afterwards output is of
      interest exactly when bytes are pending. */
  lemma CallKeeps(c: Echo, e: Report)
    requires Fifo(c) && InterestFits(c) && c.isOpen
    ensures var o := Call(c, e);
            && Fifo(o.c) && c.received <= o.c.received && c.sent <= o.c.sent
            && (!o.threw && o.c.isOpen ==>
                  InterestFits(o.c) && (Out in o.c.interest <==> o.c.writePos < o.c.readPos))
  {
    hide HandleRead, HandleWrite, Fifo;
    InterestOnly(c);
    var c0 := c.(called := true);
    assert Fifo(c0) by { CalledFifo(c); }
    InterestOnly(c0);
    HandleReadKeeps(c0, e.ins);
    var r := if In in e.events then HandleRead(c0, e.ins) else Outcome(c0, false);
    InterestOnly(r.c);
    HandleWriteKeeps(r.c, e.outs);
    InterestOnly(HandleWrite(r.c, e.outs).c);
  }

  /** The byte queue does not depend on the interest set or on being open. */
  lemma InterestOnly(c: Echo)
    requires Fifo(c)
    ensures forall i: set<Event>, b: bool :: Fifo(c.(interest := i, isOpen := b))
    ensures forall i: set<Event> :: Fifo(c.(interest := i))
    ensures forall b: bool :: Fifo(c.(isOpen := b))
    ensures WellFormed(c)
  {
  }

  // ---- runs of the server -----------------------------------------------------

  /** Every connection is open, consistent, and watched for exactly its interests; while
      the server runs nothing else is watched. */
  ghost predicate Fit(s: Server) {
    && s.connections.Keys <= s.epoll.Keys
    && (!s.dead ==> s.connections.Keys == s.epoll.Keys)
    && (forall fd :: fd in s.connections ==>
          && Fifo(s.connections[fd]) && InterestFits(s.connections[fd]) && s.connections[fd].isOpen
          && fd in s.epoll && s.epoll[fd] == s.connections[fd].interest)
  }

  lemma AcceptedFits()
    ensures Fifo(ACCEPTED) && InterestFits(ACCEPTED) && ACCEPTED.isOpen
  {
    assert ACCEPTED.buff[..0] == "";
  }

  lemma CloseFits(s: Server, fd: int, c: Echo, cleanup: bool)
    requires Fit(s)
    ensures Fit(Forget(s, fd)) && Fit(CloseAfterThrow(s, fd, c, cleanup))
  {
    hide Fifo, InterestFits;
  }

  lemma HandleEventFits(s: Server, fd: int, e: Report)
    requires Fit(s) && fd in s.connections
    ensures WellFormed(s.connections[fd])
    ensures Fit(HandleEvent(s, fd, e))
  {
    hide InterestFits, Call, CloseAfterThrow, Forget;
    var c := s.connections[fd];
    CallKeeps(c, e);
    CloseFits(s, fd, Call(c, e).c, e.cleanup);
  }

  /** On every run: first in, first out on every connection, and epoll masks equal to the
      interest sets. */
  lemma {:induction false} RunFit(actions: seq<Action>)
    ensures Fit(Run(actions))
  {
    hide HandleEvent, Fifo, InterestFits;
    if actions != [] {
      var s, a := Run(actions[..|actions| - 1]), actions[|actions| - 1];
      RunFit(actions[..|actions| - 1]);
      match a
      case Accept(fd, registered) => AcceptedFits();
      case ListenFails =>
      case OnReport(fd, e) =>
        if fd in s.connections {
          HandleEventFits(s, fd, e);
        }
    }
  }

  /** After each handler call that leaves a connection registered, epoll watches it for
      output exactly when bytes are pending. */
  lemma OutputWatched(s: Server, fd: int, e: Report)
    requires Fit(s) && fd in s.connections && Triggers(s.connections[fd], e.events)
    ensures WellFormed(s.connections[fd])
    ensures var t := HandleEvent(s, fd, e);
            fd in t.connections ==>
              fd in t.epoll
              && (Out in t.epoll[fd] <==> t.connections[fd].writePos < t.connections[fd].readPos)
              && s.connections[fd].received <= t.connections[fd].received
              && s.connections[fd].sent <= t.connections[fd].sent
  {
    hide InterestFits, Call;
    CallKeeps(s.connections[fd], e);
  }

  // ---- what ends the server -----------------------------------------------------

  /** The result at which reading stops: the first that brings no bytes. */
  function StopsWith(ins: seq<ReadResult>): ReadResult {
    if ins == [] then Again
    else if ins[0].Data? then (if ins[0].bytes == "" then Again else StopsWith(ins[1..]))
    else ins[0]
  }

  /** The bytes that reading brings into a buffer of `size` with `pos` in use: each read is
      cut to the free room, and a full buffer is doubled. */
  function Brought(pos: nat, size: nat, ins: seq<ReadResult>): string
    requires pos < size
    decreases |ins|
  {
    if ins == [] || !ins[0].Data? || ins[0].bytes == "" then ""
    else
      var n := Min(|ins[0].bytes|, size - pos);
      ins[0].bytes[..n] + Brought(pos + n, if pos + n == size then 2 * size else size, ins[1..])
  }

  lemma AppendMoves(c: Echo, got: string)
    requires WellFormed(c) && c.readPos + |got| <= |c.buff|
    ensures var c' := Append(c, got);
            && c'.readPos == c.readPos + |got| && c'.writePos == c.writePos && c'.isOpen == c.isOpen
            && c'.received == c.received + got
            && |c'.buff| == if c'.readPos == |c.buff| then 2 * |c.buff| else |c.buff|
  {
  }

  predicate BringsData(ins: seq<ReadResult>) {
    ins != [] && ins[0].Data? && ins[0].bytes != ""
  }

  /** One read that brings bytes. */
  lemma ReadStep(c: Echo, ins: seq<ReadResult>)
    requires WellFormed(c) && BringsData(ins)
    ensures var n := Min(|ins[0].bytes|, |c.buff| - c.readPos);
            var c' := Append(c, ins[0].bytes[..n]);
            && ReadLoop(c, ins) == ReadLoop(c', ins[1..]) && StopsWith(ins) == StopsWith(ins[1..])
            && WellFormed(c') && c'.readPos == c.readPos + n && c'.writePos == c.writePos && c'.isOpen == c.isOpen
            && c'.received == c.received + ins[0].bytes[..n]
            && Brought(c.readPos, |c.buff|, ins) == ins[0].bytes[..n] + Brought(c'.readPos, |c'.buff|, ins[1..])
  {
    hide Append;
    AppendMoves(c, ins[0].bytes[..Min(|ins[0].bytes|, |c.buff| - c.readPos)]);
  }

  lemma Joined(a: string, b: string, c: string)
    ensures a + b + c == a + (b + c)
  {
  }

  /** How reading ends is decided by the results alone, and what it brings by the results
      and the room. */
  lemma {:induction false} ReadLoopVerdict(c: Echo, ins: seq<ReadResult>)
    requires WellFormed(c)
    ensures var o := ReadLoop(c, ins);
            && (o.threw <==> StopsWith(ins) in {ReadFailed, Eof(false)})
            && o.c.isOpen == (c.isOpen && StopsWith(ins) != Eof(true))
            && o.c.received == c.received + Brought(c.readPos, |c.buff|, ins)
            && o.c.readPos == c.readPos + |Brought(c.readPos, |c.buff|, ins)| && o.c.writePos == c.writePos
    decreases |ins|
  {
    if BringsData(ins) {
      hide ReadLoop, StopsWith, Brought, Append, WellFormed;
      ReadStep(c, ins);
      var got := ins[0].bytes[..Min(|ins[0].bytes|, |c.buff| - c.readPos)];
      var c' := Append(c, got);
      ReadLoopVerdict(c', ins[1..]);
      Joined(c.received, got, Brought(c'.readPos, |c'.buff|, ins[1..]));
    }
  }

  /** How many of the pending bytes the writes take. */
  function Taken(outs: seq<WriteResult>, pending: nat): (n: nat)
    ensures n <= pending
  {
    if pending == 0 || outs == [] || outs[0].WriteFailed? || outs[0].count == 0 then 0
    else
      var n := Min(outs[0].count, pending);
      n + Taken(outs[1..], pending - n)
  }

  function Total(outs: seq<WriteResult>): nat {
    if outs == [] then 0 else (if outs[0].Took? then outs[0].count else 0) + Total(outs[1..])
  }

  /** Write `k` fails, each one before it takes something, and together they take less than
      what is pending. */
  predicate FailsAt(outs: seq<WriteResult>, pending: nat, k: nat) {
    && k < |outs| && outs[k].WriteFailed?
    && (forall i :: 0 <= i < k ==> outs[i].Took? && outs[i].count > 0)
    && Total(outs[..k]) < pending
  }

  ghost predicate SendFails(outs: seq<WriteResult>, pending: nat) {
    exists k: nat :: FailsAt(outs, pending, k)
  }

  lemma FailsLater(outs: seq<WriteResult>, pending: nat, k: nat)
    requires outs != [] && outs[0].Took? && outs[0].count > 0
    ensures FailsAt(outs, pending, k + 1)
            <==> outs[0].count < pending && FailsAt(outs[1..], pending - outs[0].count, k)
  {
    if k + 1 < |outs| {
      assert outs[..k + 1][1..] == outs[1..][..k];
      assert outs[..k + 1][0] == outs[0];
      assert outs[1..][k] == outs[k + 1];
      forall i | 0 <= i < k ensures outs[1..][i] == outs[i + 1] {
      }
      if forall i :: 0 <= i < k ==> outs[1..][i].Took? && outs[1..][i].count > 0 {
        forall i | 0 < i < k + 1 ensures outs[i].Took? && outs[i].count > 0 {
          assert outs[i] == outs[1..][i - 1];
        }
      }
    }
  }

  lemma SendFailsStep(outs: seq<WriteResult>, pending: nat)
    ensures SendFails(outs, pending)
            <==> && pending > 0 && outs != []
                 && (|| outs[0].WriteFailed?
                     || (0 < outs[0].count < pending && SendFails(outs[1..], pending - outs[0].count)))
  {
    hide FailsAt;
    if k: nat :| FailsAt(outs, pending, k) {
      FailsFirst(outs, pending, k);
      if k > 0 {
        FailsLater(outs, pending, k - 1);
      }
    }
    if pending > 0 && outs != [] {
      if outs[0].WriteFailed? {
        assert FailsAt(outs, pending, 0) by { FailsNow(outs, pending); }
      } else if 0 < outs[0].count < pending && SendFails(outs[1..], pending - outs[0].count) {
        var k: nat :| FailsAt(outs[1..], pending - outs[0].count, k);
        FailsLater(outs, pending, k);
      }
    }
  }

  lemma FailsFirst(outs: seq<WriteResult>, pending: nat, k: nat)
    requires FailsAt(outs, pending, k)
    ensures pending > 0 && outs != []
    ensures if k == 0 then outs[0].WriteFailed? else outs[0].Took? && outs[0].count > 0
  {
  }

  lemma FailsNow(outs: seq<WriteResult>, pending: nat)
    requires pending > 0 && outs != [] && outs[0].WriteFailed?
    ensures FailsAt(outs, pending, 0)
  {
    assert outs[..0] == [];
  }

  lemma AdvanceMoves(c: Echo, n: nat)
    requires WellFormed(c) && c.writePos + n <= c.readPos
    ensures Advance(c, n).writePos == c.writePos + n
    ensures Advance(c, n).readPos == c.readPos && Advance(c, n).isOpen == c.isOpen
  {
  }

  /** On an open connection, what is sent and whether sending fails is decided by the
      results and the number of pending bytes. */
  lemma {:induction false} WriteLoopVerdict(c: Echo, outs: seq<WriteResult>)
    requires WellFormed(c) && c.isOpen
    ensures var o := WriteLoop(c, outs);
            var pending := c.readPos - c.writePos;
            && (o.threw <==> SendFails(outs, pending))
            && o.c.writePos == c.writePos + Taken(outs, pending) && o.c.readPos == c.readPos
    decreases |outs|
  {
    hide Advance, SendFails;
    var pending := c.readPos - c.writePos;
    SendFailsStep(outs, pending);
    if pending > 0 && outs != [] && outs[0].Took? && outs[0].count > 0 {
      var n := Min(outs[0].count, pending);
      AdvanceMoves(c, n);
      WriteLoopVerdict(Advance(c, n), outs[1..]);
      SendFailsStep(outs[1..], pending - n);
    }
  }

  /** The bytes to be written once this report's reads are done, and once its writes are. */
  function Due(c: Echo, e: Report): nat
    requires WellFormed(c)
  {
    c.readPos - c.writePos + |NewBytes(c, e)|
  }

  /** The bytes this report's reads bring. */
  function NewBytes(c: Echo, e: Report): string
    requires WellFormed(c)
  {
    if In in e.events then Brought(c.readPos, |c.buff|, e.ins) else ""
  }

  /** The number of bytes this report's writes send: they are reached only if reading
      neither failed nor met the end of the stream. */
  function NewlySent(c: Echo, e: Report): nat
    requires WellFormed(c)
  {
    if Out in e.events && ReadingStops(e) == Again then Taken(e.outs, Due(c, e)) else 0
  }

  function LeftOver(c: Echo, e: Report): nat
    requires WellFormed(c)
  {
    Due(c, e) - if Out in e.events then Taken(e.outs, Due(c, e)) else 0
  }

  function ReadingStops(e: Report): ReadResult {
    if In in e.events then StopsWith(e.ins) else Again
  }

  /** A report that ends `accept`. Either the handler closed the connection at the end of
      the stream and then has bytes to write to it, which throws, and closing it once more
      throws again; or anything else throws (a failing close, read, write, or the epoll
      update that follows when bytes begin or cease to be pending) and the close in the
      catch clause fails too. */
  ghost predicate Kills(c: Echo, e: Report)
    requires WellFormed(c)
  {
    if Err in e.events then !e.errClosed && !e.cleanup
    else if ReadingStops(e) == Eof(true) then Out in e.events && Due(c, e) > 0
    else !e.cleanup
         && (|| ReadingStops(e) in {ReadFailed, Eof(false)}
             || (Out in e.events && SendFails(e.outs, Due(c, e)))
             || (Triggers(c, e.events) && !e.modifyOk && !(Out in c.interest <==> LeftOver(c, e) > 0)))
  }

  /** The handler after its reads. */
  lemma AfterReads(c: Echo, e: Report)
    requires Fifo(c) && c.isOpen && (c.writePos < c.readPos ==> Out in c.interest)
    ensures var r := if In in e.events then HandleRead(c, e.ins) else Outcome(c, false);
            && Fifo(r.c) && (r.threw <==> ReadingStops(e) in {ReadFailed, Eof(false)})
            && r.c.isOpen == (ReadingStops(e) != Eof(true))
            && r.c.readPos - r.c.writePos == Due(c, e)
            && r.c.received == c.received + NewBytes(c, e) && r.c.writePos == c.writePos
            && (!r.threw ==> r.c.interest == c.interest + (if Due(c, e) > 0 then {Out} else {}))
  {
    hide ReadLoop, Fifo, Brought;
    InterestOnly(c);
    if In in e.events {
      ReadLoopVerdict(c, e.ins);
      HandleReadKeeps(c, e.ins);
    } else {
      assert c.interest + {} == c.interest;
      assert Due(c, e) > 0 ==> c.interest + {Out} == c.interest;
    }
  }

  /** The handler after its writes. */
  lemma AfterWrites(c: Echo, e: Report)
    requires Fifo(c)
    ensures var pending := c.readPos - c.writePos;
            var left := pending - if Out in e.events then Taken(e.outs, pending) else 0;
            var w := if Out in e.events then HandleWrite(c, e.outs) else Outcome(c, false);
            && w.c.isOpen == c.isOpen && Fifo(w.c) && WellFormed(w.c) && w.c.received == c.received
            && w.c.writePos == c.writePos + (if Out in e.events && c.isOpen then Taken(e.outs, pending) else 0)
            && (w.threw <==> Out in e.events && (if c.isOpen then SendFails(e.outs, pending) else pending > 0))
            && (c.isOpen && !w.threw ==>
                  w.c.readPos - w.c.writePos == left
                  && Settled(w.c).interest == if left > 0 then c.interest else c.interest - {Out})
  {
    hide WriteLoop, Fifo, SendFails, Taken;
    InterestOnly(c);
    if Out in e.events {
      WriteLoopFifo(c, e.outs);
      InterestOnly(WriteLoop(c, e.outs).c);
      assert c.interest - {Out} - {Out} == c.interest - {Out};
      if c.isOpen {
        WriteLoopVerdict(c, e.outs);
      }
    }
  }

  /** When the handler throws, when it closes, and what interest it leaves. */
  lemma CallVerdict(c: Echo, e: Report)
    requires Fifo(c) && InterestFits(c) && c.isOpen && Err !in e.events
    ensures var o := Call(c, e);
            && (o.threw <==>
                  || ReadingStops(e) in {ReadFailed, Eof(false)}
                  || (Out in e.events && (if ReadingStops(e) == Eof(true) then Due(c, e) > 0
                                          else SendFails(e.outs, Due(c, e)))))
            && o.c.isOpen == (ReadingStops(e) != Eof(true))
            && (!o.threw && o.c.isOpen ==>
                  o.c.interest == if LeftOver(c, e) > 0 then c.interest + {Out} else c.interest - {Out})
  {
    hide HandleRead, HandleWrite, Fifo, Brought, SendFails, Taken, StopsWith, Settled;
    var c0 := c.(called := true);
    assert Fifo(c0) by { CalledFifo(c); }
    AfterReads(c0, e);
    InterestOnly(c);
    InterestOnly(c0);
    assert Due(c0, e) == Due(c, e);
    var r := if In in e.events then HandleRead(c0, e.ins) else Outcome(c0, false);
    if !r.threw {
      AfterWrites(r.c, e);
      InterestOnly(r.c);
      assert c.interest + {Out} - {Out} == c.interest - {Out};
      assert c.interest + {} - {Out} == c.interest - {Out};
      var w := if Out in e.events then HandleWrite(r.c, e.outs) else r;
      SettledOnly(w.c);
    }
  }

  /** What one call moves: the bytes the reads bring are received, and the next bytes are
      sent, in order, as many as the writes take. A reported error moves nothing. */
  lemma CallMoves(c: Echo, e: Report)
    requires Fifo(c) && InterestFits(c) && c.isOpen
    ensures var o := Call(c, e);
            if Err in e.events then o.c.received == c.received && o.c.sent == c.sent
            else && o.c.received == c.received + NewBytes(c, e)
                 && o.c.sent <= o.c.received && |o.c.sent| == |c.sent| + NewlySent(c, e)
  {
    hide HandleRead, HandleWrite, Fifo, Brought, SendFails, Taken, StopsWith, Settled;
    var c0 := c.(called := true);
    assert Fifo(c0) by { CalledFifo(c); }
    AfterReads(c0, e);
    InterestOnly(c);
    SentCount(c);
    StopsWithoutData(e.ins);
    var r := if In in e.events then HandleRead(c0, e.ins) else Outcome(c0, false);
    SentCount(r.c);
    InterestOnly(r.c);
    if !r.threw && Err !in e.events {
      AfterWrites(r.c, e);
      var w := if Out in e.events then HandleWrite(r.c, e.outs) else r;
      SettledOnly(w.c);
      SentCount(w.c);
    }
  }

  lemma SettledOnly(c: Echo)
    ensures Settled(c) == c.(interest := Settled(c).interest)
  {
  }

  lemma SentCount(c: Echo)
    requires Fifo(c)
    ensures |c.sent| == c.writePos && c.sent <= c.received
  {
  }

  lemma {:induction false} StopsWithoutData(ins: seq<ReadResult>)
    ensures !StopsWith(ins).Data?
  {
    if ins != [] && ins[0].Data? {
      StopsWithoutData(ins[1..]);
    }
  }

  /** An event ends the accept loop exactly when it is one of those. */
  lemma EventKillsServer(s: Server, fd: int, e: Report)
    requires Fit(s) && !s.dead && fd in s.connections
    ensures WellFormed(s.connections[fd])
    ensures HandleEvent(s, fd, e).dead <==> Kills(s.connections[fd], e)
  {
    hide Fifo, Call, Brought, SendFails;
    var c := s.connections[fd];
    InterestOnly(c);
    assert Err in e.events ==> Err in e.events * {Hup, RdHup, Err};
    if Err in e.events {
      CallOnError(c, e);
    } else {
      CallVerdict(c, e);
      if !Triggers(c, e.events) {
        QuietReport(c, e);
      }
    }
  }

  lemma CallOnError(c: Echo, e: Report)
    requires WellFormed(c) && Err in e.events
    ensures Call(c, e).threw == !e.errClosed && Call(c, e).c.isOpen == (c.isOpen && !e.errClosed)
    ensures Call(c, e).c.interest == c.interest
  {
  }

  /** A report that does not call the handler is for nothing to read or to write. */
  lemma QuietReport(c: Echo, e: Report)
    requires Fifo(c) && InterestFits(c) && !Triggers(c, e.events)
    ensures In !in e.events && (Out in e.events ==> Due(c, e) == 0 && !SendFails(e.outs, 0))
  {
    InterestOnly(c);
    assert In in e.events ==> In in c.interest * e.events;
    assert Out in e.events && Out in c.interest ==> Out in c.interest * e.events;
  }

  lemma CalledFifo(c: Echo)
    requires Fifo(c)
    ensures Fifo(c.(called := true))
  {
  }
}
