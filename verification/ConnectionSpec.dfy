/** One connection as a step machine: the program counter of the coroutine that runs
    `ConnectionHandler::operator()`, the handler's fields, and the system-call results
    the environment supplies. */
module ConnectionSpec {
  import opened Text
  import opened Protocol
  import opened ParserSpec

  datatype Event = In | Out

  /** A callback returns a response or throws. */
  datatype Reply = Respond(response: Response) | Raise(exn: Exn)

  /** What the handler is built with. `slack` is how many bytes beyond those received
      the parser is shown: 0 is the intended view, 1 the one the code passes. */
  datatype Service = Service(callback: Request -> Reply, slack: nat)

  datatype Kind = Normal(close: bool) | ErrorReply

  /** Where the coroutine is. */
  datatype Pc =
    | Start
    | Reading(parser: State, readIdx: nat)
    | Writing(kind: Kind)
    | Finished(threw: bool)

  /** `received`, `segments` and `sent` are history: all bytes read, the bytes read for
      each answered request, all bytes written. */
  datatype Conn = Conn(
    pc: Pc,
    suspended: bool,
    timeout: bool,
    interest: set<Event>,
    readBuff: string,
    writeBuff: string,
    written: nat,
    lastActivity: int,
    received: string,
    segments: seq<string>,
    sent: string)

  /** Results of `read` and `write`, and the return of `Coroutine::yield`. */
  datatype Io =
    | Received(bytes: string)
    | Accepted(count: nat)
    | Again(now: int)
    | Resumed(timedOut: bool)
    | Zero
    | Reset
    | Failed

  const INITIAL_BUFFER_SIZE: nat := 1024

  /** A registered handler whose coroutine has not run yet. */
  const CREATED: Conn :=
    Conn(Start, true, false, {In}, Zeros(INITIAL_BUFFER_SIZE), "", 0, 0, "", [], "")

  /** What `read_buff_` shows the parser; the byte at its end is the terminating NUL. */
  function View(svc: Service, buff: string, idx: nat): (v: string)
    requires idx + svc.slack <= |buff| + 1
    ensures |v| == idx + svc.slack
  {
    (buff + "\0")[..idx + svc.slack]
  }

  predicate WellFormed(svc: Service, c: Conn) {
    && svc.slack <= 1
    && |c.readBuff| > 0
    && (c.pc.Reading? ==> c.pc.readIdx < |c.readBuff| && c.pc.parser.parsedTotal <= c.pc.readIdx + svc.slack)
    && (c.pc.Writing? ==> c.written < |c.writeBuff|)
    && (c.pc.Start? ==> c.suspended)
    && (c.pc.Finished? ==> !c.suspended)
  }

  /** The results the operating system can produce in this state. */
  predicate Enabled(svc: Service, c: Conn, io: Io) {
    && WellFormed(svc, c)
    && !c.pc.Finished?
    && (c.suspended <==> io.Resumed?)
    && (io.Received? ==> c.pc.Reading? && 0 < |io.bytes| <= |c.readBuff| - c.pc.readIdx)
    && (io.Accepted? ==> c.pc.Writing? && 0 < io.count <= |c.writeBuff| - c.written)
  }

  // ---- answering ----------------------------------------------------------

  /** `getHeader("Connection")` compared with a literal. */
  predicate ConnectionIs(req: Request, text: string) {
    "connection" in req.headers && req.headers["connection"].value == text
  }

  predicate ShouldClose(req: Request) {
    match req.version
    case HTTP10 => !ConnectionIs(req, "Keep-Alive")
    case HTTP11 => ConnectionIs(req, "close")
  }

  function Completed(req: Request, r: Response): Response {
    var r' := r.(version := req.version);
    if !ShouldClose(req) && req.version == HTTP10 then WithHeader(r', Field("Connection", "keep-alive")) else r'
  }

  /** What is written for a parser outcome, if the coroutine does not die of it. */
  datatype Answer = Answer(text: string, kind: Kind) | Dies

  function ErrorAnswer(code: nat): Answer {
    Answer.Answer(DumpText(DEFAULT_RESPONSE.(code := code)), ErrorReply)
  }

  function AnswerToRequest(svc: Service, req: Request): (a: Answer)
    ensures a.Answer? ==> |a.text| > 0
  {
    match svc.callback(req)
    case Respond(r) => Answer.Answer(DumpText(Completed(req, r)), Normal(ShouldClose(req)))
    case Raise(Parsing(code)) => ErrorAnswer(code)
    case Raise(_) => Dies
  }

  function AnswerTo(svc: Service, o: Outcome): (a: Answer)
    ensures a.Answer? ==> |a.text| > 0
  {
    match o
    case Throw(_, Parsing(code)) => ErrorAnswer(code)
    case Throw(_, _) => Dies
    case Ok(st) => AnswerToRequest(svc, BuildRequest(st))
  }

  predicate Pending(o: Outcome) { o.Ok? && o.st.phase != Done }

  function Finish(c: Conn, threw: bool): Conn {
    c.(pc := Finished(threw), suspended := false)
  }

  function BeginWrite(c: Conn, text: string, kind: Kind): Conn {
    c.(interest := c.interest - {In} + {Out}, writeBuff := text, written := 0, pc := Writing(kind))
  }

  /** The parser's verdict on the bytes received so far decides how to go on. */
  function Judge(svc: Service, c: Conn, o: Outcome, idx: nat): Conn
    requires idx <= |c.readBuff|
  {
    if Pending(o) then
      c.(pc := Reading(o.st, idx),
         readBuff := if idx >= |c.readBuff| then c.readBuff + Zeros(|c.readBuff|) else c.readBuff)
    else
      match AnswerTo(svc, o)
      case Dies => Finish(c, true)
      case Answer(text, kind) =>
        BeginWrite(c, text, kind).(segments := c.segments + [c.readBuff[..idx]])
  }

  function AfterRead(svc: Service, c: Conn, parser: State, idx: nat): Conn
    requires svc.slack <= 1 && idx <= |c.readBuff| && parser.parsedTotal <= idx + svc.slack
  {
    Judge(svc, c, Parse(parser, View(svc, c.readBuff, idx)), idx)
  }

  /** The handler after `read` stored bytes behind the first `idx`. */
  function Store(c: Conn, idx: nat, bytes: string): (c': Conn)
    requires idx + |bytes| <= |c.readBuff|
    ensures |c'.readBuff| == |c.readBuff|
    ensures c'.readBuff[..idx + |bytes|] == c.readBuff[..idx] + bytes
  {
    c.(readBuff := c.readBuff[..idx] + bytes + c.readBuff[idx + |bytes|..], received := c.received + bytes)
  }

  function NextRequest(c: Conn): Conn {
    c.(interest := c.interest - {Out} + {In}, pc := Reading(FRESH, 0))
  }

  /** The handler after `write` took some bytes; a complete response ends the exchange
      or starts the next one. */
  function AfterWrite(c: Conn, kind: Kind, count: nat): Conn
    requires c.written + count <= |c.writeBuff|
  {
    var w := c.written + count;
    var c' := c.(written := w, sent := c.sent + c.writeBuff[c.written..w]);
    if w < |c.writeBuff| then c'
    else if kind == Normal(false) then NextRequest(c')
    else Finish(c', false)
  }

  function AfterYield(svc: Service, c: Conn, timedOut: bool): Conn
    requires WellFormed(svc, c) && !c.pc.Finished?
  {
    var c' := c.(suspended := false, timeout := c.timeout || timedOut);
    match c.pc
    case Start => if c'.timeout then Finish(c', false) else c'.(pc := Reading(FRESH, 0))
    case Reading(parser, idx) =>
      if c'.timeout then Finish(c', false) else AfterRead(svc, c', parser, idx)
    case Writing(kind) =>
      if c'.timeout then Finish(c', kind == ErrorReply) else c'
  }

  /** One system-call result, or the return from one suspension. Results the operating
      system cannot produce here change nothing. */
  function Step(svc: Service, c: Conn, io: Io): Conn {
    if !Enabled(svc, c, io) then c
    else
      match io
      case Received(bytes) =>
        AfterRead(svc, Store(c, c.pc.readIdx, bytes), c.pc.parser, c.pc.readIdx + |bytes|)
      case Accepted(count) => AfterWrite(c, c.pc.kind, count)
      case Again(now) => c.(lastActivity := now, suspended := true)
      case Resumed(timedOut) => AfterYield(svc, c, timedOut)
      case Zero => Finish(c, c.pc.Writing?)
      case Reset => Finish(c, c.pc.Reading?)
      case Failed => Finish(c, true)
  }

  function Run(svc: Service, c: Conn, ios: seq<Io>): Conn {
    if ios == [] then c
    else Step(svc, Run(svc, c, ios[..|ios| - 1]), ios[|ios| - 1])
  }
}
