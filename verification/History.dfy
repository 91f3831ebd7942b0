/** A connection's fields as functions of the results it has been given. */
module History {
  import opened Text
  import opened ParserSpec
  import opened ParserLaws
  import opened ConnectionSpec
  import opened ConnectionLaws
  import opened StreamLaws

  // ---- what has happened on a connection ----------------------------------------

  /** The results that could occur when their turn came. */
  function Occurring(svc: Service, ios: seq<Io>): seq<Io>
    decreases |ios|
  {
    if ios == [] then []
    else
      var init, last := ios[..|ios| - 1], ios[|ios| - 1];
      Occurring(svc, init) + if Enabled(svc, Run(svc, CREATED, init), last) then [last] else []
  }

  /** The bytes that `read` delivered. */
  function BytesRead(ios: seq<Io>): string {
    if ios == [] then ""
    else
      var last := ios[|ios| - 1];
      BytesRead(ios[..|ios| - 1]) + if last.Received? then last.bytes else ""
  }

  /** How many bytes `write` took. */
  function CountWritten(ios: seq<Io>): nat {
    if ios == [] then 0
    else
      var last := ios[|ios| - 1];
      CountWritten(ios[..|ios| - 1]) + if last.Accepted? then last.count else 0
  }

  /** The time of the last result that would have blocked; 0 if there is none. */
  function LastBlocked(ios: seq<Io>): int {
    if ios == [] then 0
    else
      var last := ios[|ios| - 1];
      if last.Again? then last.now else LastBlocked(ios[..|ios| - 1])
  }

  predicate TimedOut(ios: seq<Io>) {
    Resumed(true) in ios
  }

  /** What can occur on a run is only what the operating system's contracts leave: `read`
      and `write` return from the side that is waiting, with some bytes, and no more than
      there is room for or than was offered. */
  lemma CanOccur(svc: Service, ios: seq<Io>, io: Io)
    requires svc.slack <= 1
    ensures var c := Run(svc, CREATED, ios);
            Enabled(svc, c, io) <==>
              && !c.pc.Finished? && (io.Resumed? <==> c.suspended)
              && (io.Received? ==> c.pc.Reading? && 0 < |io.bytes| <= |c.readBuff| - c.pc.readIdx)
              && (io.Accepted? ==> c.pc.Writing? && 0 < io.count <= |c.writeBuff| - c.written)
  {
    hide Run;
    RunKeepsSound(svc, ios);
  }

  /** A verdict moves no history, and only adds room. */
  lemma JudgeMoves(svc: Service, c: Conn, o: Outcome, idx: nat)
    requires idx <= |c.readBuff|
    ensures var c' := Judge(svc, c, o, idx);
            && c'.received == c.received && c'.sent == c.sent && c'.lastActivity == c.lastActivity
            && c'.timeout == c.timeout && (!c.suspended ==> !c'.suspended)
            && c.readBuff <= c'.readBuff
  {
    hide AnswerTo, Pending, Zeros;
  }

  ghost predicate Moves(c: Conn, io: Io, c': Conn) {
    && c'.received == c.received + (if io.Received? then io.bytes else "")
    && |c'.sent| == |c.sent| + (if io.Accepted? then io.count else 0)
    && c'.lastActivity == (if io.Again? then io.now else c.lastActivity)
    && c'.timeout == (c.timeout || io == Resumed(true))
    && c'.suspended == io.Again?
  }

  lemma ReceivedMoves(svc: Service, c: Conn, bytes: string)
    requires Enabled(svc, c, Received(bytes))
    ensures var c' := Step(svc, c, Received(bytes));
            && Moves(c, Received(bytes), c')
            && c.readBuff[..c.pc.readIdx] + bytes + c.readBuff[c.pc.readIdx + |bytes|..] <= c'.readBuff
  {
    hide Parse, Judge, View;
    var idx := c.pc.readIdx + |bytes|;
    var c' := Store(c, c.pc.readIdx, bytes);
    JudgeMoves(svc, c', Parse(c.pc.parser, View(svc, c'.readBuff, idx)), idx);
  }

  lemma ResumedMoves(svc: Service, c: Conn, timedOut: bool)
    requires Enabled(svc, c, Resumed(timedOut))
    ensures var c' := Step(svc, c, Resumed(timedOut));
            Moves(c, Resumed(timedOut), c') && c.readBuff <= c'.readBuff
  {
    hide Parse, Judge, View;
    assert c.received + "" == c.received;
    if c.pc.Reading? {
      var idx := c.pc.readIdx;
      var c' := c.(suspended := false, timeout := c.timeout || timedOut);
      JudgeMoves(svc, c', Parse(c.pc.parser, View(svc, c.readBuff, idx)), idx);
    }
  }

  /** One step moves each history by its result, and overwrites the buffer only where it
      reads. */
  lemma StepHistory(svc: Service, c: Conn, io: Io)
    requires Enabled(svc, c, io)
    ensures Moves(c, io, Step(svc, c, io))
    ensures var c' := Step(svc, c, io);
            if io.Received?
            then c.readBuff[..c.pc.readIdx] + io.bytes + c.readBuff[c.pc.readIdx + |io.bytes|..] <= c'.readBuff
            else c.readBuff <= c'.readBuff
  {
    match io
    case Received(bytes) => ReceivedMoves(svc, c, bytes);
    case Resumed(timedOut) => ResumedMoves(svc, c, timedOut);
    case _ =>
      hide AfterRead, AfterYield;
      assert c.received + "" == c.received;
  }

  /** On every run: received is what `read` delivered, sent as much as `write` took, the
      last activity is the last time the socket was not ready, and the timeout flag is set
      by the first resume that sets it. */
  lemma {:induction false} RunHistory(svc: Service, ios: seq<Io>)
    ensures var c, os := Run(svc, CREATED, ios), Occurring(svc, ios);
            && c.received == BytesRead(os) && |c.sent| == CountWritten(os)
            && c.lastActivity == LastBlocked(os) && (c.timeout <==> TimedOut(os))
            && (c.suspended <==> os == [] || os[|os| - 1].Again?)
    decreases |ios|
  {
    hide Step, Enabled;
    if ios != [] {
      var init, last := ios[..|ios| - 1], ios[|ios| - 1];
      RunHistory(svc, init);
      var c := Run(svc, CREATED, init);
      var os := Occurring(svc, init);
      if Enabled(svc, c, last) {
        StepHistory(svc, c, last);
        assert (os + [last])[..|os|] == os;
        assert TimedOut(os + [last]) <==> TimedOut(os) || last == Resumed(true);
      } else {
        NothingHappens(svc, c, last);
        assert os + [] == os;
      }
    }
  }

  lemma NothingHappens(svc: Service, c: Conn, io: Io)
    requires !Enabled(svc, c, io)
    ensures Step(svc, c, io) == c
  {
  }

  // ---- where a step leads ---------------------------------------------------------

  /** The bytes of the request being read, once this result has been taken. */
  function PendingAfter(c: Conn, io: Io): string
    requires c.pc.Reading? && c.pc.readIdx <= |c.readBuff|
  {
    c.readBuff[..c.pc.readIdx] + if io.Received? then io.bytes else ""
  }

  /** The coroutine's body after one result: it goes on exactly as long as nothing failed,
      the peer is there, the time is not up, what has been read can be answered or is not
      yet complete, and the answer written does not close. */
  ghost predicate LeadsTo(svc: Service, c: Conn, io: Io, pc: Pc) {
    match io
    case Again(_) => pc == c.pc
    case Zero => pc == Finished(c.pc.Writing?)
    case Reset => pc == Finished(c.pc.Reading?)
    case Failed => pc == Finished(true)
    case Resumed(timedOut) =>
      if c.timeout || timedOut then pc == Finished(c.pc == Writing(ErrorReply))
      else if c.pc.Start? then pc == Reading(FRESH, 0)
      else pc == c.pc
    case Received(bytes) =>
      c.pc.Reading? && c.pc.readIdx <= |c.readBuff|
      && var pending := PendingAfter(c, io);
         (match OneShot(pending)
          case Throw(_, Parsing(_)) => pc == Writing(ErrorReply)
          case Throw(_, _) => pc == Finished(true)
          case Ok(st) =>
            if st.phase != Done then pc == Reading(st, |pending|)
            else match svc.callback(BuildRequest(st))
                 case Respond(_) => pc == Writing(Normal(ShouldClose(BuildRequest(st))))
                 case Raise(Parsing(_)) => pc == Writing(ErrorReply)
                 case Raise(_) => pc == Finished(true))
    case Accepted(count) =>
      c.pc.Writing?
      && (if c.written + count < |c.writeBuff| then pc == c.pc
          else if c.pc.kind == Normal(false) then pc == Reading(FRESH, 0)
          else pc == Finished(false))
  }

  lemma StepLeadsTo(svc: Service, c: Conn, io: Io)
    requires svc.slack == 0 && StreamExact(svc, c) && Enabled(svc, c, io)
    ensures LeadsTo(svc, c, io, Step(svc, c, io).pc)
  {
    hide OneShot, Parse, Judge, OutputExact, Concat, Idle;
    match io
    case Received(bytes) =>
      var idx := c.pc.readIdx + |bytes|;
      var c' := Store(c, c.pc.readIdx, bytes);
      StoreOnlyBuffer(c, c.pc.readIdx, bytes);
      ViewIsReceived(svc, c'.readBuff, idx);
      ParseExtends(c.readBuff[..c.pc.readIdx], c'.readBuff[..idx]);
      JudgeLeadsTo(svc, c', OneShot(c'.readBuff[..idx]), idx);
    case Resumed(timedOut) =>
      if c.pc.Reading? {
        var idx := c.pc.readIdx;
        var c' := c.(suspended := false, timeout := c.timeout || timedOut);
        ViewIsReceived(svc, c.readBuff, idx);
        ParseIdempotent(c.readBuff[..idx]);
        JudgeLeadsTo(svc, c', OneShot(c.readBuff[..idx]), idx);
      }
    case Accepted(count) =>
    case Again(now) =>
    case Zero =>
    case Reset =>
    case Failed =>
  }

  lemma JudgeLeadsTo(svc: Service, c: Conn, o: Outcome, idx: nat)
    requires idx <= |c.readBuff|
    ensures var pc := Judge(svc, c, o, idx).pc;
            if Pending(o) then pc == Reading(o.st, idx)
            else match AnswerTo(svc, o)
                 case Answer(_, kind) => pc == Writing(kind)
                 case Dies => pc == Finished(true)
  {
    hide AnswerTo;
  }

  /** On every run each result leads where it should. */
  lemma RunLeadsTo(svc: Service, ios: seq<Io>, io: Io)
    requires svc.slack == 0 && Enabled(svc, Run(svc, CREATED, ios), io)
    ensures LeadsTo(svc, Run(svc, CREATED, ios), io, Run(svc, CREATED, ios + [io]).pc)
  {
    hide Step, StreamExact, LeadsTo, Enabled;
    RunKeepsStream(svc, ios);
    StepLeadsTo(svc, Run(svc, CREATED, ios), io);
    assert (ios + [io])[..|ios|] == ios;
  }
}
