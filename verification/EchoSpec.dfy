/** The asynchronous echo handler and the server loop that keeps epoll informed. */
module EchoSpec {
  import opened Text

  datatype Event = In | Out | Err | Hup | RdHup

  /** A connection with its echo context. `received` and `sent` are history; `called` says
      whether the handler has run on it. */
  datatype Echo = Echo(
    isOpen: bool,
    interest: set<Event>,
    buff: string,
    readPos: nat,
    writePos: nat,
    received: string,
    sent: string,
    called: bool)

  const CONTEXT_SIZE: nat := 256

  /** What `accept` registers with the default interests. */
  const ACCEPTED := Echo(true, {In, Out}, Zeros(CONTEXT_SIZE), 0, 0, "", "", false)

  /** Results of `read`: bytes (cut to the free room), would block, end of stream with the
      success of the close that follows it, error. A list that runs out would block. */
  datatype ReadResult = Data(bytes: string) | Again | Eof(closed: bool) | ReadFailed

  /** Results of `write`: a number of bytes taken (cut to what was offered; 0 would block). */
  datatype WriteResult = Took(count: nat) | WriteFailed

  datatype Outcome = Outcome(c: Echo, threw: bool)

  predicate WellFormed(c: Echo) {
    c.writePos <= c.readPos < |c.buff|
  }

  function Min(a: nat, b: nat): nat { if a < b then a else b }

  /** Appending bytes at `readPos`, growing the buffer when it is full. */
  function Append(c: Echo, bytes: string): (c': Echo)
    requires WellFormed(c) && c.readPos + |bytes| <= |c.buff|
    ensures WellFormed(c')
  {
    var pos := c.readPos + |bytes|;
    var b := c.buff[..c.readPos] + bytes + c.buff[pos..];
    c.(buff := if |b| == pos then b + Zeros(|b|) else b, readPos := pos, received := c.received + bytes)
  }

  function ReadLoop(c: Echo, ins: seq<ReadResult>): (o: Outcome)
    requires WellFormed(c)
    ensures WellFormed(o.c)
    decreases |ins|
  {
    if ins == [] then Outcome(c, false)
    else
      match ins[0]
      case Data(bytes) =>
        var got := bytes[..Min(|bytes|, |c.buff| - c.readPos)];
        if got == "" then Outcome(c, false) else ReadLoop(Append(c, got), ins[1..])
      case Again => Outcome(c, false)
      case Eof(closed) => if closed then Outcome(c.(isOpen := false), false) else Outcome(c, true)
      case ReadFailed => Outcome(c, true)
  }

  function HandleRead(c: Echo, ins: seq<ReadResult>): (o: Outcome)
    requires WellFormed(c)
    ensures WellFormed(o.c)
  {
    var o := ReadLoop(c, ins);
    if !o.threw && o.c.writePos < o.c.readPos then Outcome(o.c.(interest := o.c.interest + {Out}), false) else o
  }

  function Advance(c: Echo, n: nat): (c': Echo)
    requires WellFormed(c) && c.writePos + n <= c.readPos
    ensures WellFormed(c')
  {
    c.(writePos := c.writePos + n, sent := c.sent + c.buff[c.writePos..c.writePos + n])
  }

  /** Writing to a closed connection throws. */
  function WriteLoop(c: Echo, outs: seq<WriteResult>): (o: Outcome)
    requires WellFormed(c)
    ensures WellFormed(o.c)
    decreases |outs|
  {
    if c.writePos == c.readPos then Outcome(c, false)
    else if !c.isOpen then Outcome(c, true)
    else if outs == [] then Outcome(c, false)
    else
      match outs[0]
      case Took(count) =>
        var n := Min(count, c.readPos - c.writePos);
        if n == 0 then Outcome(c, false) else WriteLoop(Advance(c, n), outs[1..])
      case WriteFailed => Outcome(c, true)
  }

  function Settled(c: Echo): Echo {
    if c.writePos == c.readPos then c.(interest := c.interest - {Out}) else c
  }

  function HandleWrite(c: Echo, outs: seq<WriteResult>): (o: Outcome)
    requires WellFormed(c)
    ensures WellFormed(o.c)
  {
    var o := WriteLoop(c, outs);
    if o.threw then o else Outcome(Settled(o.c), false)
  }

  /** One report of `epoll_wait` and what the system makes of the calls it causes: the
      handler's own close on ERR, the epoll update, the catch clause's close. */
  datatype Report = Report(
    events: set<Event>,
    ins: seq<ReadResult>,
    outs: seq<WriteResult>,
    errClosed: bool,
    modifyOk: bool,
    cleanup: bool)

  /** `Handler::operator()`. A close that fails throws and leaves the connection open. */
  function Call(c: Echo, e: Report): (o: Outcome)
    requires WellFormed(c)
    ensures WellFormed(o.c)
  {
    var c0 := c.(called := true);
    if Err in e.events then
      if e.errClosed then Outcome(c0.(isOpen := false), false) else Outcome(c0, true)
    else
      var r := if In in e.events then HandleRead(c0, e.ins) else Outcome(c0, false);
      if r.threw then r
      else
        var w := if Out in e.events then HandleWrite(r.c, e.outs) else r;
        if w.threw then w else Outcome(Settled(w.c), false)
  }

  // ---- the server -----------------------------------------------------------

  /** Connections, their epoll masks, and whether an exception has ended `accept`. */
  datatype Server = Server(connections: map<int, Echo>, epoll: map<int, set<Event>>, dead: bool)

  const LISTENING := Server(map[], map[], false)

  function Forget(s: Server, fd: int): Server {
    s.(connections := s.connections - {fd}, epoll := s.epoll - {fd})
  }

  /** `closeConnection` in the catch clause. Closing a closed connection throws out of
      `accept`, and so does a close that fails, which leaves the descriptor registered. */
  function CloseAfterThrow(s: Server, fd: int, c: Echo, cleanup: bool): Server {
    if !c.isOpen then Forget(s, fd).(dead := true)
    else if cleanup then Forget(s, fd)
    else s.(connections := s.connections - {fd}, dead := true)
  }

  predicate Triggers(c: Echo, events: set<Event>) {
    c.interest * events != {} || events * {Hup, RdHup, Err} != {}
  }

  function HandleEvent(s: Server, fd: int, e: Report): Server
    requires fd in s.connections && WellFormed(s.connections[fd])
  {
    var c := s.connections[fd];
    var o := if Triggers(c, e.events) then Call(c, e) else Outcome(c, false);
    if o.threw then CloseAfterThrow(s, fd, o.c, e.cleanup)
    else if !o.c.isOpen then Forget(s, fd)
    else if o.c.interest == c.interest then s.(connections := s.connections[fd := o.c])
    else if e.modifyOk then s.(connections := s.connections[fd := o.c], epoll := s.epoll[fd := o.c.interest])
    else CloseAfterThrow(s, fd, o.c, e.cleanup)
  }

  /** `registered`: the new connection's addresses were found and epoll took it; if not,
      the exception leaves `accept`, as a failing `accept4` or `epoll_wait` does. */
  datatype Action =
    | Accept(client: int, registered: bool)
    | ListenFails
    | OnReport(fd: int, report: Report)

  function Register(s: Server, fd: int, registered: bool): Server {
    if registered then
      s.(connections := s.connections[fd := ACCEPTED], epoll := s.epoll[fd := ACCEPTED.interest])
    else s.(dead := true)
  }

  /** Reports for unknown descriptors throw and close nothing; after `accept` has ended
      nothing happens any more. */
  function Act(s: Server, a: Action): Server {
    if s.dead then s
    else
      match a
      case Accept(fd, registered) => if fd in s.epoll then s else Register(s, fd, registered)
      case ListenFails => s.(dead := true)
      case OnReport(fd, e) =>
        if fd in s.connections && WellFormed(s.connections[fd]) then HandleEvent(s, fd, e) else s
  }

  function Run(actions: seq<Action>): Server {
    if actions == [] then LISTENING else Act(Run(actions[..|actions| - 1]), actions[|actions| - 1])
  }
}
