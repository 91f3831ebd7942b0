/** What the echo server has done with a connection, told by the reports alone. */
module EchoHistory {
  import opened Text
  import opened EchoSpec
  import opened EchoLaws

  // ---- the room for reading ---------------------------------------------------------

  /** The buffer for so many bytes: doubled until one more fits. */
  function Capacity(used: nat, size: nat): (r: nat)
    requires size > 0
    ensures used < r && size <= r
    decreases if used < size then 0 else used - size + 1
  {
    if used < size then size else Capacity(used, 2 * size)
  }

  lemma {:induction false} CapacityKept(used: nat, more: nat, size: nat)
    requires size > 0 && used <= more < Capacity(used, size)
    ensures Capacity(more, size) == Capacity(used, size)
    decreases if used < size then 0 else used - size + 1
  {
    if used >= size {
      CapacityKept(used, more, 2 * size);
    }
  }

  lemma {:induction false} CapacityDoubled(used: nat, size: nat)
    requires size > 0
    ensures Capacity(Capacity(used, size), size) == 2 * Capacity(used, size)
    decreases if used < size then 0 else used - size + 1
  {
    if used >= size {
      CapacityDoubled(used, 2 * size);
    } else {
      assert Capacity(size, size) == Capacity(size, 2 * size);
    }
  }

  ghost predicate Roomy(c: Echo) {
    WellFormed(c) && |c.buff| == Capacity(c.readPos, CONTEXT_SIZE)
  }

  lemma {:induction false} ReadLoopRoomy(c: Echo, ins: seq<ReadResult>)
    requires Roomy(c)
    ensures Roomy(ReadLoop(c, ins).c)
    decreases |ins|
  {
    hide Append, Capacity;
    if BringsData(ins) {
      ReadStep(c, ins);
      var got := ins[0].bytes[..Min(|ins[0].bytes|, |c.buff| - c.readPos)];
      AppendMoves(c, got);
      if c.readPos + |got| == |c.buff| {
        CapacityDoubled(c.readPos, CONTEXT_SIZE);
      } else {
        CapacityKept(c.readPos, c.readPos + |got|, CONTEXT_SIZE);
      }
      ReadLoopRoomy(Append(c, got), ins[1..]);
    }
  }

  lemma {:induction false} WriteLoopRoomy(c: Echo, outs: seq<WriteResult>)
    requires Roomy(c)
    ensures Roomy(WriteLoop(c, outs).c)
    decreases |outs|
  {
    if c.writePos != c.readPos && c.isOpen && outs != [] && outs[0].Took? {
      var n := Min(outs[0].count, c.readPos - c.writePos);
      if n != 0 {
        WriteLoopRoomy(Advance(c, n), outs[1..]);
      }
    }
  }

  lemma CallRoomy(c: Echo, e: Report)
    requires Roomy(c)
    ensures Roomy(Call(c, e).c)
  {
    hide ReadLoop, WriteLoop, Capacity;
    var c0 := c.(called := true);
    ReadLoopRoomy(c0, e.ins);
    var r := if In in e.events then HandleRead(c0, e.ins).c else c0;
    WriteLoopRoomy(r, e.outs);
  }

  // ---- one report ----------------------------------------------------------------------

  /** The connection survives the report: nothing it did failed, the stream did not end,
      and its new registration, where one is needed, went through. */
  ghost predicate Survives(c: Echo, e: Report)
    requires WellFormed(c)
  {
    !Triggers(c, e.events)
    || (&& Err !in e.events && ReadingStops(e) == Again
        && !(Out in e.events && SendFails(e.outs, Due(c, e)))
        && (e.modifyOk || (Out in c.interest <==> LeftOver(c, e) > 0)))
  }

  /** What a report leaves: the connection, if it survives, with what its call moved; no
      other connection is touched. */
  lemma ReportLeaves(s: Server, fd: int, e: Report)
    requires Fit(s) && fd in s.connections
    ensures WellFormed(s.connections[fd])
    ensures var c, t := s.connections[fd], HandleEvent(s, fd, e);
            && (fd in t.connections <==> Survives(c, e))
            && (fd in t.connections ==>
                  && t.connections[fd].received == c.received + (if Triggers(c, e.events) then NewBytes(c, e) else "")
                  && t.connections[fd].sent <= t.connections[fd].received
                  && |t.connections[fd].sent| == |c.sent| + (if Triggers(c, e.events) then NewlySent(c, e) else 0)
                  && t.connections[fd] == if Triggers(c, e.events) then Call(c, e).c else c)
            && (forall g :: g != fd ==> (g in t.connections <==> g in s.connections))
            && (forall g :: g != fd && g in s.connections ==> t.connections[g] == s.connections[g])
  {
    hide Fifo, Call, Brought, SendFails, StopsWith, Taken;
    var c := s.connections[fd];
    InterestOnly(c);
    SentCount(c);
    StopsWithoutData(e.ins);
    CallMoves(c, e);
    assert c.received + "" == c.received;
    if Err in e.events {
      CallOnError(c, e);
      assert Err in e.events * {Hup, RdHup, Err};
    } else {
      CallVerdict(c, e);
    }
  }

  /** What accepting leaves: the new connection, open and with nothing moved, of interest
      and watched for both directions; or, if it could not be registered, a server that has
      ended. No other connection is touched. */
  lemma AcceptLeaves(s: Server, fd: int, registered: bool)
    requires !s.dead && fd !in s.epoll && Fit(s)
    ensures var t := Act(s, Accept(fd, registered));
            && t.dead == !registered
            && t.connections.Keys == s.connections.Keys + (if registered then {fd} else {})
            && (forall g :: g in s.connections ==> t.connections[g] == s.connections[g])
            && (registered ==>
                  && t.connections[fd].isOpen && t.connections[fd].received == "" == t.connections[fd].sent
                  && t.connections[fd].interest == {In, Out} == t.epoll[fd])
  {
    assert fd !in s.connections;
  }

  // ---- every run -------------------------------------------------------------------------

  /** The bytes the reports have delivered to a connection since it was accepted. */
  function Delivered(actions: seq<Action>, fd: int): string
    decreases |actions|
  {
    if actions == [] || fd !in Run(actions).connections then ""
    else
      var init, a := actions[..|actions| - 1], actions[|actions| - 1];
      var before := Delivered(init, fd);
      if a.OnReport? && a.fd == fd && fd in Run(init).connections && In in a.report.events && !Run(init).dead
      then before + Brought(|before|, Capacity(|before|, CONTEXT_SIZE), a.report.ins)
      else before
  }

  lemma NewBytesFromReceived(c: Echo, e: Report)
    requires Roomy(c) && |c.received| == c.readPos
    ensures NewBytes(c, e)
            == if In in e.events then Brought(|c.received|, Capacity(|c.received|, CONTEXT_SIZE), e.ins) else ""
  {
  }

  lemma ReceivedCount(c: Echo)
    requires Fifo(c)
    ensures |c.received| == c.readPos && c.sent <= c.received
  {
  }

  /** On every run a connection has received exactly the bytes delivered to it since it was
      accepted, each read cut to the room that the bytes before leave, and has sent a
      prefix of them. */
  lemma {:induction false} EchoesDelivered(actions: seq<Action>, fd: int)
    requires fd in Run(actions).connections
    ensures var c := Run(actions).connections[fd];
            c.received == Delivered(actions, fd) && c.sent <= Delivered(actions, fd) && Roomy(c)
    decreases |actions|
  {
    hide Run, HandleEvent, Fifo, Brought, Roomy, InterestFits;
    RunFit(actions);
    ReceivedCount(Run(actions).connections[fd]);
    assert actions != [] by { RunBegins(); }
    var init, a := actions[..|actions| - 1], actions[|actions| - 1];
    var s := Run(init);
    RunFit(init);
    RunEnds(actions);
    if fd in s.connections {
      EchoesDelivered(init, fd);
      ReceivedCount(s.connections[fd]);
    } else {
      assert Delivered(init, fd) == "" by { NotDelivered(init, fd); }
    }
    DeliveredNext(s, a, fd);
  }

  lemma RunBegins()
    ensures Run([]) == LISTENING
  {
  }

  lemma RunEnds(actions: seq<Action>)
    requires actions != []
    ensures Run(actions) == Act(Run(actions[..|actions| - 1]), actions[|actions| - 1])
  {
  }

  lemma NotDelivered(actions: seq<Action>, fd: int)
    requires fd !in Run(actions).connections
    ensures Delivered(actions, fd) == ""
  {
  }

  /** One more report on a connection that survives it. */
  lemma ReportDelivers(s: Server, fd: int, e: Report)
    requires Fit(s) && fd in s.connections && Roomy(s.connections[fd])
    requires fd in HandleEvent(s, fd, e).connections
    ensures var c, c' := s.connections[fd], HandleEvent(s, fd, e).connections[fd];
            && Roomy(c')
            && c'.received == c.received + (if In in e.events
                                            then Brought(|c.received|, Capacity(|c.received|, CONTEXT_SIZE), e.ins)
                                            else "")
  {
    hide Fifo, Call, Brought, Capacity, HandleEvent, Survives, Roomy;
    var c := s.connections[fd];
    ReportLeaves(s, fd, e);
    ReceivedCount(c);
    NewBytesFromReceived(c, e);
    CallRoomy(c, e);
    assert In in e.events ==> In in c.interest * e.events;
  }

  lemma AcceptedRoomy()
    ensures Roomy(ACCEPTED)
  {
  }

  /** One more action, for the connection with this descriptor. */
  lemma DeliveredNext(s: Server, a: Action, fd: int)
    requires Fit(s) && fd in Act(s, a).connections
    requires fd in s.connections ==> Roomy(s.connections[fd])
    ensures var c' := Act(s, a).connections[fd];
            && Roomy(c')
            && (if fd !in s.connections then c'.received == ""
                else var c := s.connections[fd];
                     if a.OnReport? && a.fd == fd && In in a.report.events && !s.dead
                     then c'.received == c.received
                            + Brought(|c.received|, Capacity(|c.received|, CONTEXT_SIZE), a.report.ins)
                     else c'.received == c.received)
  {
    hide Fifo, Brought, Capacity, HandleEvent, Roomy, InterestFits, Survives, NewBytes, NewlySent;
    AcceptedRoomy();
    if !s.dead {
      match a
      case Accept(_, _) =>
      case ListenFails =>
      case OnReport(g, e) =>
        if g in s.connections {
          ReportLeaves(s, g, e);
          if g == fd {
            ReportDelivers(s, fd, e);
            assert s.connections[fd].received + "" == s.connections[fd].received;
          }
        }
    }
  }
}
