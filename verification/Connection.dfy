/** The handler in direct style: the loops of `readRequest`, `writeResponse` and
    `operator()`, in which `Coroutine::yield` is a point where control comes back later.
    `io` is what the environment delivers over the handler's life; a method that runs
    out of it is waiting inside a system call or a suspension. */
module Connection {
  import opened Text
  import opened Protocol
  import opened ParserSpec
  import opened ConnectionSpec
  import opened Parser
  import opened ParserLaws
  import opened StreamLaws

  /** How `readRequest` is left. */
  datatype ReadResult =
    | Waiting
    | Got(request: Request)
    | Rejected(exn: Exn)
    | EndOfStream
    | ReadTimedOut
    | ReadFailed

  /** How `writeResponse` is left. */
  datatype WriteResult = Blocked | Complete | PeerReset | WriteTimedOut | WriteFailed

  /** The exceptions of the try block in `operator()`; parser and callback raise the last. */
  datatype Thrown = Timeout | ReadingError | WritingError | FromRequest(exn: Exn)

  /** How one pass through the try block ends. */
  datatype Exit = Stuck | Returned | NextRound | Raised(thrown: Thrown)

  ghost predicate AllEnabled(svc: Service, c0: Conn, ios: seq<Io>) {
    forall n :: 0 <= n < |ios| ==> Enabled(svc, Run(svc, c0, ios[..n]), ios[n])
  }

  /** One more result is one more enabled step. */
  lemma RunNext(svc: Service, c0: Conn, ios: seq<Io>, n: nat)
    requires AllEnabled(svc, c0, ios) && n < |ios|
    ensures Enabled(svc, Run(svc, c0, ios[..n]), ios[n])
    ensures Run(svc, c0, ios[..n + 1]) == Step(svc, Run(svc, c0, ios[..n]), ios[n])
  {
    hide Step;
    assert ios[..n + 1][..n] == ios[..n];
  }

  /** The results of `read`. */
  lemma ReadingStep(svc: Service, c: Conn, io: Io)
    requires Enabled(svc, c, io) && c.pc.Reading? && !c.suspended
    ensures !io.Resumed? && !io.Accepted?
    ensures io.Received? ==> c.pc.readIdx + |io.bytes| <= |c.readBuff| && |io.bytes| > 0
    ensures Step(svc, c, io)
            == match io
               case Again(now) => c.(lastActivity := now, suspended := true)
               case Received(bytes) =>
                 AfterRead(svc, Store(c, c.pc.readIdx, bytes), c.pc.parser, c.pc.readIdx + |bytes|)
               case Zero => Finish(c, false)
               case _ => Finish(c, true)
  {
    hide AfterRead, Store;
  }

  lemma ReadingResumes(svc: Service, c: Conn, io: Io)
    requires Enabled(svc, c, io) && c.pc.Reading? && c.suspended
    ensures io.Resumed? && c.pc.readIdx < |c.readBuff|
    ensures var c' := c.(suspended := false, timeout := c.timeout || io.timedOut);
            Step(svc, c, io)
            == if c'.timeout then Finish(c', false) else AfterRead(svc, c', c.pc.parser, c.pc.readIdx)
  {
    hide AfterRead;
  }

  /** The results of `write`. */
  lemma WritingStep(svc: Service, c: Conn, io: Io)
    requires Enabled(svc, c, io) && c.pc.Writing? && !c.suspended
    ensures !io.Resumed? && !io.Received?
    ensures io.Accepted? ==> c.written + io.count <= |c.writeBuff| && io.count > 0
    ensures Step(svc, c, io)
            == match io
               case Again(now) => c.(lastActivity := now, suspended := true)
               case Accepted(count) => AfterWrite(c, c.pc.kind, count)
               case Reset => Finish(c, false)
               case _ => Finish(c, true)
  {
    hide AfterRead, AfterWrite;
  }

  lemma WritingResumes(svc: Service, c: Conn, io: Io)
    requires Enabled(svc, c, io) && c.pc.Writing? && c.suspended
    ensures io.Resumed?
    ensures var c' := c.(suspended := false, timeout := c.timeout || io.timedOut);
            Step(svc, c, io) == if c'.timeout then Finish(c', c.pc.kind == ErrorReply) else c'
  {
    hide AfterRead;
  }

  /** A verdict does not depend on where the coroutine was. */
  lemma JudgePending(svc: Service, c: Conn, o: Outcome, idx: nat)
    requires idx <= |c.readBuff| && Pending(o)
    ensures Judge(svc, c, o, idx)
            == c.(pc := Reading(o.st, idx),
                  readBuff := if idx >= |c.readBuff| then c.readBuff + Zeros(|c.readBuff|) else c.readBuff)
  {
    hide AnswerTo;
  }

  /** Under the intended view, going on parsing is parsing all at once. */
  lemma ParsedAtOnce(svc: Service, st: State, seen: string, buff: string, idx: nat)
    requires svc.slack == 0 && idx <= |buff| && seen <= buff[..idx] && OneShot(seen) == Ok(st)
    ensures st.parsedTotal <= idx && ParserSpec.Parse(st, View(svc, buff, idx)) == OneShot(buff[..idx])
  {
    hide OneShot, ParserSpec.Parse;
    ViewIsReceived(svc, buff, idx);
    ParseExtends(seen, buff[..idx]);
  }

  lemma GrownKeeps(buff: string, idx: nat)
    requires idx <= |buff|
    ensures (buff + Zeros(|buff|))[..idx] == buff[..idx]
  {
  }

  /** How the machine stands once `readRequest` has been left with `r`: `before` is the
      handler just before the verdict `o` on its first `idx` bytes. */
  ghost predicate ReadLeft(svc: Service, r: ReadResult, c: Conn, before: Conn, o: Outcome, idx: nat) {
    match r
    case Waiting => c.pc.Reading?
    case Got(request) =>
      && o.Ok? && o.st.phase == Done && request == BuildRequest(o.st)
      && idx <= |before.readBuff| && c == Judge(svc, before, o, idx)
    case Rejected(exn) => o.Throw? && o.exn == exn && idx <= |before.readBuff| && c == Judge(svc, before, o, idx)
    case EndOfStream => c.pc == Finished(false)
    case ReadTimedOut => c.pc == Finished(false)
    case ReadFailed => c.pc == Finished(true)
  }

  ghost predicate WriteLeft(r: WriteResult, kind: Kind, c: Conn, before: Conn) {
    match r
    case Blocked => c.pc == Writing(kind)
    case Complete => c == if kind == Normal(false) then NextRequest(before) else Finish(before, false)
    case PeerReset => c.pc == Finished(false)
    case WriteTimedOut => c.pc == Finished(kind == ErrorReply)
    case WriteFailed => c.pc == Finished(true)
  }

  lemma StartResumes(svc: Service, c: Conn, io: Io)
    requires Enabled(svc, c, io) && c.pc.Start?
    ensures io.Resumed?
    ensures var c' := c.(suspended := false, timeout := c.timeout || io.timedOut);
            Step(svc, c, io) == if c'.timeout then Finish(c', false) else c'.(pc := Reading(FRESH, 0))
  {
    hide AfterRead;
  }

  /** A verdict, by what the callback (or the parser) has to say. */
  lemma Replied(svc: Service, c: Conn, o: Outcome, idx: nat, reply: Reply)
    requires idx <= |c.readBuff| && !Pending(o)
    requires reply == if o.Throw? then Raise(o.exn) else svc.callback(BuildRequest(o.st))
    ensures var answered := c.segments + [c.readBuff[..idx]];
            Judge(svc, c, o, idx)
            == match reply
               case Raise(Parsing(code)) =>
                 BeginWrite(c, DumpText(DEFAULT_RESPONSE.(code := code)), ErrorReply).(segments := answered)
               case Raise(_) => Finish(c, true)
               case Respond(r) =>
                 var req := BuildRequest(o.st);
                 BeginWrite(c, DumpText(Completed(req, r)), Normal(ShouldClose(req))).(segments := answered)
  {
    hide DumpText, Completed, ShouldClose;
  }

  /** The handler after a `write`, before it decides how to go on. */
  function AfterWriteShape(c: Conn, kind: Kind, count: nat): (c': Conn)
    requires c.written + count <= |c.writeBuff| && count > 0
    ensures AfterWrite(c, kind, count)
            == if c'.written < |c.writeBuff| then c'
               else if kind == Normal(false) then NextRequest(c') else Finish(c', false)
  {
    c.(written := c.written + count, sent := c.sent + c.writeBuff[c.written..c.written + count])
  }

  class ConnectionHandler {
    const svc: Service
    var timeout: bool
    var interest: set<Event>
    var readBuff: string
    var writeBuff: string
    var lastActivity: int
    ghost var machine: Conn

    /** The handler's fields are those of a machine state. */
    ghost predicate Tracks(c: Conn)
      reads this
    {
      && c.timeout == timeout && c.interest == interest && c.lastActivity == lastActivity
      && c.readBuff == readBuff && c.writeBuff == writeBuff
    }

    /** The machine has taken the first `n` results. */
    ghost predicate Follows(c0: Conn, io: seq<Io>, n: nat)
      reads this`machine
    {
      n <= |io| && AllEnabled(svc, c0, io) && machine == Run(svc, c0, io[..n])
    }

    constructor (svc: Service)
      ensures this.svc == svc
      ensures machine == CREATED && Tracks(CREATED)
    {
      this.svc := svc;
      timeout, interest := false, {In};
      readBuff, writeBuff, lastActivity := Zeros(INITIAL_BUFFER_SIZE), "", 0;
      machine := CREATED;
    }

    /** One more result for the machine. */
    ghost method Advance(c0: Conn, io: seq<Io>, n: nat)
      requires Follows(c0, io, n) && n < |io|
      modifies this`machine
      ensures Follows(c0, io, n + 1)
      ensures Enabled(svc, old(machine), io[n]) && machine == Step(svc, old(machine), io[n])
    {
      hide Step;
      RunNext(svc, c0, io, n);
      machine := Step(svc, machine, io[n]);
    }

    /** One `read` into the free room, with the suspension that follows EAGAIN. `None`
        means the bytes in the buffer are to be parsed (again). */
    method Fill(ghost c0: Conn, io: seq<Io>, pos: nat, readIdx: nat, ghost parser: State)
      returns (left: Option<ReadResult>, next: nat, idx: nat, ghost before: Conn)
      requires svc.slack <= 1 && Follows(c0, io, pos) && Tracks(machine)
      requires machine.pc == Reading(parser, readIdx) && !machine.suspended
      requires readIdx < |readBuff| && parser.parsedTotal <= readIdx + svc.slack
      modifies this
      ensures pos <= next && Follows(c0, io, next) && Tracks(before) && |readBuff| == old(|readBuff|)
      ensures left.Some? ==> before == machine && !left.value.Got? && !left.value.Rejected?
                             && ReadLeft(svc, left.value, machine, before, Ok(FRESH), 0)
                             && (left.value == Waiting ==> next == |io|)
      ensures left.None? ==> pos < next && readIdx <= idx <= |readBuff| && !before.suspended
                             && old(readBuff)[..readIdx] <= readBuff[..idx]
                             && machine == AfterRead(svc, before, parser, idx)
    {
      hide AfterRead, Step, Run, Enabled, AllEnabled, Follows, WellFormed;
      left, next, idx, before := None, pos, readIdx, machine;
      FollowsBound(c0, io, next);
      if next == |io| {
        return Some(Waiting), next, idx, machine;
      }
      EnabledNext(c0, io, next);
      ReadingStep(svc, machine, io[next]);
      Advance(c0, io, next);
      next := next + 1;
      match io[pos] {
        case Again(now) =>
          lastActivity := now;
          // Coroutine::yield()
          if next == |io| {
            return Some(Waiting), next, idx, machine;
          }
          EnabledNext(c0, io, next);
          ReadingResumes(svc, machine, io[next]);
          before := machine.(suspended := false, timeout := machine.timeout || io[next].timedOut);
          Advance(c0, io, next);
          timeout := timeout || io[next].timedOut;
          next := next + 1;
          if timeout {
            left, before := Some(ReadTimedOut), machine;
          }
        case Received(bytes) =>
          before := Store(before, readIdx, bytes);
          readBuff := readBuff[..readIdx] + bytes + readBuff[readIdx + |bytes|..];
          idx := readIdx + |bytes|;
        case Zero =>
          left, before := Some(EndOfStream), machine;
        case _ =>
          left, before := Some(ReadFailed), machine;
      }
    }

    method ReadRequest(ghost c0: Conn, io: seq<Io>, pos: nat)
      returns (r: ReadResult, next: nat, ghost before: Conn, ghost o: Outcome, ghost idx: nat)
      requires svc.slack <= 1 && Follows(c0, io, pos) && Tracks(machine) && |readBuff| > 0
      requires machine.pc == Reading(FRESH, 0) && !machine.suspended
      modifies this
      ensures pos <= next && Follows(c0, io, next) && Tracks(before) && |readBuff| > 0
      ensures ReadLeft(svc, r, machine, before, o, idx)
      ensures if r.Got? || r.Rejected? then !before.suspended else before == machine
      ensures (r == Waiting ==> next == |io|) && (r.Got? ==> pos < next)
      ensures svc.slack == 0 && (r.Got? || r.Rejected?) ==>
                idx <= |before.readBuff| && o == OneShot(before.readBuff[..idx])
    {
      hide Judge, ParserSpec.Parse, View, Step, Run, Enabled, AllEnabled, Follows, OneShot, WellFormed,
           AnswerTo, BuildRequest;
      var parser := new HttpRequestParser();
      var readIdx: nat := 0;
      next, before, o, idx := pos, machine, Ok(FRESH), 0;
      assert readBuff[..0] == "";
      FreshIsPending();
      while true
        invariant fresh(parser) && pos <= next && Follows(c0, io, next)
        invariant Tracks(machine) && readIdx < |readBuff|
        invariant svc.slack == 0 ==> OneShot(readBuff[..readIdx]) == Ok(parser.Value())
        invariant Unconsumed(parser.Value()) && parser.parsedTotal <= readIdx + svc.slack
        invariant machine.pc == Reading(parser.Value(), readIdx) && !machine.suspended
        decreases |io| - next
      {
        FollowsBound(c0, io, next);
        ghost var seen := readBuff[..readIdx];
        var left;
        left, next, readIdx, before := Fill(c0, io, next, readIdx, parser.Value());
        FollowsBound(c0, io, next);
        if left.Some? {
          return left.value, next, before, Ok(FRESH), 0;
        }
        o := ParserSpec.Parse(parser.Value(), View(svc, readBuff, readIdx));
        if svc.slack == 0 {
          ParsedAtOnce(svc, parser.Value(), seen, readBuff, readIdx);
        }
        var exn := parser.Parse(View(svc, readBuff, readIdx));
        if exn.Some? {
          return Rejected(exn.value), next, before, o, readIdx;
        }
        if parser.phase == Done {
          break;
        }
        JudgePending(svc, before, o, readIdx);
        if readIdx >= |readBuff| {
          GrownKeeps(readBuff, readIdx);
          readBuff := readBuff + Zeros(|readBuff|);
        }
      }
      idx := readIdx;
      r := Got(BuildRequest(parser.Value()));
    }

    method WriteResponse(ghost c0: Conn, ghost kind: Kind, text: string, io: seq<Io>, pos: nat)
      returns (r: WriteResult, next: nat, ghost before: Conn)
      requires Follows(c0, io, pos) && |text| > 0
      requires machine.pc == Writing(kind) && !machine.suspended
      requires machine.writeBuff == text && machine.written == 0
      requires Tracks(machine.(writeBuff := writeBuff))
      modifies this
      ensures pos <= next && Follows(c0, io, next) && Tracks(before) && readBuff == old(readBuff)
      ensures WriteLeft(r, kind, machine, before) && (if r == Complete then !before.suspended else before == machine)
      ensures r == Blocked ==> next == |io|
    {
      hide Step, Run, Enabled, AllEnabled, Follows, AfterWrite, WellFormed, NextRequest;
      writeBuff := text;
      var written: nat := 0;
      next, before := pos, machine;
      while written != |writeBuff|
        invariant pos <= next && Follows(c0, io, next) && Tracks(before)
        invariant written == before.written <= |writeBuff| && readBuff == old(readBuff)
        invariant before.pc == Writing(kind) && !before.suspended
        invariant if written < |writeBuff| then before == machine else WriteLeft(Complete, kind, machine, before)
        decreases |io| - next
      {
        FollowsBound(c0, io, next);
        if next == |io| {
          return Blocked, next, machine;
        }
        EnabledNext(c0, io, next);
        WritingStep(svc, machine, io[next]);
        Advance(c0, io, next);
        next := next + 1;
        match io[next - 1] {
          case Again(now) =>
            lastActivity := now;
            // Coroutine::yield()
            if next == |io| {
              return Blocked, next, machine;
            }
            EnabledNext(c0, io, next);
            WritingResumes(svc, machine, io[next]);
            Advance(c0, io, next);
            timeout := timeout || io[next].timedOut;
            next := next + 1;
            before := machine;
            if timeout {
              return WriteTimedOut, next, machine;
            }
          case Reset =>
            return PeerReset, next, machine;
          case Accepted(count) =>
            before := AfterWriteShape(before, kind, count);
            written := written + count;
          case _ =>
            return WriteFailed, next, machine;
        }
      }
      r := Complete;
    }

    /** The body of the try block in `operator()`: one request and its response. What it
        raises is the exception that leaves the block. */
    method Serve(ghost c0: Conn, io: seq<Io>, pos: nat) returns (exit: Exit, next: nat)
      requires svc.slack <= 1 && Follows(c0, io, pos) && Tracks(machine) && |readBuff| > 0
      requires machine.pc == Reading(FRESH, 0) && !machine.suspended
      modifies this
      ensures pos <= next && Follows(c0, io, next) && |readBuff| > 0
      ensures match exit
              case Stuck => next == |io| && !machine.pc.Finished? && Tracks(machine)
              case Returned => machine.pc == Finished(false) && Tracks(machine)
              case NextRound =>
                pos < next && machine.pc == Reading(FRESH, 0) && !machine.suspended && Tracks(machine)
              case Raised(FromRequest(Parsing(code))) => AboutToReport(code)
              case Raised(t) => machine.pc == Finished(t != Timeout) && Tracks(machine)
    {
      hide Step, Run, Enabled, AllEnabled, Follows, Judge, DumpText, ShouldClose, AnswerTo;
      var r; ghost var before, o, idx;
      r, next, before, o, idx := ReadRequest(c0, io, pos);
      FollowsBound(c0, io, next);
      match r {
        case Waiting => return Stuck, next;
        case EndOfStream => return Returned, next;
        case ReadTimedOut => return Raised(Timeout), next;
        case ReadFailed => return Raised(ReadingError), next;
        case Rejected(exn) =>
          Replied(svc, before, o, idx, Raise(exn));
          return Raised(FromRequest(exn)), next;
        case Got(request) =>
          var shouldClose := ShouldClose(request);
          var reply := svc.callback(request);
          Replied(svc, before, o, idx, reply);
          if reply.Raise? {
            return Raised(FromRequest(reply.exn)), next;
          }
          var response := reply.response.(version := request.version);
          if !shouldClose && request.version == HTTP10 {
            response := WithHeader(response, Field("Connection", "keep-alive"));
          }
          interest := interest - {In} + {Out};
          var w; ghost var last;
          w, next, last := WriteResponse(c0, Normal(shouldClose), DumpText(response), io, next);
          FollowsBound(c0, io, next);
          match w {
            case Blocked => return Stuck, next;
            case PeerReset => return Returned, next;
            case WriteTimedOut => return Raised(Timeout), next;
            case WriteFailed => return Raised(WritingError), next;
            case Complete =>
              if shouldClose {
                return Returned, next;
              }
              interest := interest - {Out} + {In};
              return NextRound, next;
          }
      }
    }

    /** The machine has begun an error response that the handler has still to turn to. */
    ghost predicate AboutToReport(code: nat)
      reads this
    {
      && machine.pc == Writing(ErrorReply) && !machine.suspended && machine.written == 0
      && machine.writeBuff == DumpText(DEFAULT_RESPONSE.(code := code))
      && machine.interest == interest - {In} + {Out}
      && Tracks(machine.(interest := interest, writeBuff := writeBuff))
    }

    /** `operator()`: requests and responses in turn until the connection ends, or until
        the environment has nothing more to deliver. `threw` says whether an exception
        leaves the function: a timeout and a parse error are caught, everything else is
        not, and neither is anything raised while the catch clause writes its response. */
    method Operate(ghost c0: Conn, io: seq<Io>) returns (used: nat, threw: bool)
      requires svc.slack <= 1 && Follows(c0, io, 0) && Tracks(machine) && |readBuff| > 0
      requires machine.pc == Start && machine.suspended
      modifies this
      ensures Follows(c0, io, used) && Tracks(machine)
      ensures if machine.pc.Finished? then threw == machine.pc.threw else used == |io| && !threw
    {
      hide Step, Run, Enabled, AllEnabled, Follows, DumpText;
      used, threw := 0, false;
      FollowsBound(c0, io, used);
      if used == |io| { return; }
      EnabledNext(c0, io, used);
      StartResumes(svc, machine, io[used]);
      Advance(c0, io, used);
      timeout := timeout || io[used].timedOut;
      used := used + 1;
      if timeout { return; }
      while true
        invariant Follows(c0, io, used) && Tracks(machine) && |readBuff| > 0
        invariant machine.pc == Reading(FRESH, 0) && !machine.suspended
        decreases |io| - used
      {
        FollowsBound(c0, io, used);
        var exit;
        exit, used := Serve(c0, io, used);
        FollowsBound(c0, io, used);
        match exit {
          case Stuck => return used, false;
          case Returned => return used, false;
          case NextRound =>
          case Raised(Timeout) => return used, false;
          case Raised(FromRequest(Parsing(code))) =>
            interest := interest - {In} + {Out};
            var w; ghost var last;
            w, used, last := WriteResponse(c0, ErrorReply, DumpText(DEFAULT_RESPONSE.(code := code)), io, used);
            return used, w == WriteTimedOut || w == WriteFailed;
          case Raised(_) => return used, true;
        }
      }
    }

    lemma FollowsBound(c0: Conn, io: seq<Io>, n: nat)
      requires Follows(c0, io, n)
      ensures n <= |io|
    {
    }

    lemma EnabledNext(c0: Conn, io: seq<Io>, n: nat)
      requires Follows(c0, io, n) && n < |io|
      ensures Enabled(svc, machine, io[n])
    {
    }
  }
}
