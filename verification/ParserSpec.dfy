/** The request grammar as pure functions on parser states: what one call of
    `HttpRequestParser::parse` does to the parser's fields and what it throws. */
module ParserSpec {
  import opened Text
  import opened Protocol

  datatype Phase = RequestLine | Headers | Body | Done | Error

  datatype State = State(
    phase: Phase,
    parsedTotal: nat,
    bodyLength: nat,
    verb: Method,
    version: Version,
    path: string,
    query: FieldMap,
    headers: FieldMap,
    body: string)

  const FRESH := State(RequestLine, 0, 0, GET, HTTP10, "", map[], map[], "")

  /** What can leave a parser call or a callback other than by returning. */
  datatype Exn = Parsing(code: nat) | InvalidArgument | OutOfRange | Other

  /** A call either returns or throws; the fields keep what was assigned before. */
  datatype Outcome = Ok(st: State) | Throw(st: State, exn: Exn)

  datatype Request = Request(
    headers: FieldMap, query: FieldMap, body: string, path: string, version: Version, verb: Method)

  function BuildRequest(st: State): Request {
    Request(st.headers, st.query, st.body, st.path, st.version, st.verb)
  }

  /** Nothing is consumed before the start line is complete. */
  predicate Unconsumed(st: State) {
    st.phase == RequestLine ==> st.parsedTotal == 0
  }

  // ---- name/value lists -------------------------------------------------

  /** The pieces between separators; never empty. */
  function Pieces(s: string): (r: seq<string>)
    ensures |r| > 0
    decreases |s|
  {
    match Find(s, "&")
    case None => [s]
    case Some(k) => [s[..k]] + Pieces(s[k + 1..])
  }

  function PieceField(piece: string): Option<Field> {
    match Find(piece, "=")
    case None => None
    case Some(k) => Some(Field(piece[..k], piece[k + 1..]))
  }

  /** Empty, or closed by a CRLF. */
  predicate Terminated(block: string) {
    block == "" || (|block| >= 2 && block[|block| - 2..] == CRLF)
  }

  /** In a terminated block the next line always has an end, and what remains
      is terminated again: never a single byte. */
  lemma TerminatedStep(block: string)
    requires Terminated(block) && block != ""
    ensures Find(block, CRLF).Some?
    ensures var k := Find(block, CRLF).value;
            k + 2 <= |block| && block[k] == '\r' && Terminated(block[k + 2..])
  {
    var n := |block|;
    assert block[n - 2..] == block[n - 2..n];
    assert MatchAt(block, CRLF, n - 2);
    var k := Find(block, CRLF).value;
    assert block[n - 2..][0] == '\r' && block[n - 2..][1] == '\n';
    assert block[k..k + 2][0] == '\r' && block[k..k + 2][1] == '\n';
    assert k <= n - 2;
    assert k != n - 3;
    var rest := block[k + 2..];
    if rest != "" {
      assert rest[|rest| - 2..] == block[n - 2..];
    }
  }

  function Lines(block: string): (r: seq<string>)
    requires Terminated(block)
    decreases |block|
  {
    if block == "" then []
    else
      TerminatedStep(block);
      var k := Find(block, CRLF).value;
      [block[..k]] + Lines(block[k + 2..])
  }

  /** One optional space after the colon is dropped; a trailing space is kept. */
  function LineField(line: string): Option<Field> {
    match Find(line, ":")
    case None => None
    case Some(k) =>
      var begin := if k + 1 < |line| && line[k + 1] == ' ' then k + 2 else k + 1;
      Some(Field(line[..k], line[begin..]))
  }

  datatype Syntax = QuerySyntax | HeaderSyntax

  function FieldOf(syntax: Syntax, text: string): Option<Field> {
    match syntax
    case QuerySyntax => PieceField(text)
    case HeaderSyntax => LineField(text)
  }

  datatype Added = Added(fields: FieldMap, ok: bool)

  /** Inserts texts until one of them is not a field. */
  function AddFields(m: FieldMap, texts: seq<string>, syntax: Syntax): (r: Added)
    ensures r.ok <==> forall i :: 0 <= i < |texts| ==> FieldOf(syntax, texts[i]).Some?
    decreases |texts|
  {
    if texts == [] then Added(m, true)
    else
      match FieldOf(syntax, texts[0])
      case None => Added(m, false)
      case Some(f) =>
        var r := AddFields(Insert(m, f), texts[1..], syntax);
        assert forall i :: 0 < i < |texts| ==> texts[i] == texts[1..][i - 1];
        assert forall i :: 0 <= i < |texts| - 1 ==> texts[1..][i] == texts[i + 1];
        r
  }

  // ---- start line -------------------------------------------------------

  function MethodOf(line: string): Option<Method> {
    if "GET" <= line then Some(GET)
    else if "POST" <= line then Some(POST)
    else if "DELETE" <= line then Some(DELETE)
    else if "PUT" <= line then Some(PUT)
    else None
  }

  function Query(st: State, text: string): Outcome {
    var r := AddFields(st.query, Pieces(text), QuerySyntax);
    var st' := st.(query := r.fields);
    if r.ok then Ok(st') else Throw(st', Parsing(BAD_REQUEST))
  }

  function Url(st: State, url: string): Outcome {
    var mark := Find(url, "?");
    var o := if mark.Some? && |url| > mark.value + 1 then Query(st, url[mark.value + 1..]) else Ok(st);
    if o.Throw? then o
    else
      var st' := o.st.(path := if mark.Some? then url[..mark.value] else url);
      if st'.path == "" then Throw(st'.(phase := Error), Parsing(BAD_REQUEST)) else Ok(st')
  }

  function VersionOf(st: State, text: string): Outcome {
    if text == "HTTP/1.1" then Ok(st.(version := HTTP11))
    else if text == "HTTP/1.0" then Ok(st.(version := HTTP10))
    else Throw(st, Parsing(HTTP_VERSION_NOT_SUPPORTED))
  }

  function Target(st: State, text: string): Outcome {
    match Find(text, " ")
    case None => Throw(st, Parsing(BAD_REQUEST))
    case Some(e) =>
      var o := Url(st, text[..e]);
      if o.Throw? then o else VersionOf(o.st, text[e + 1..])
  }

  function StartLine(st: State, line: string): Outcome {
    match Find(line, " ")
    case None => Throw(st, Parsing(BAD_REQUEST))
    case Some(k) =>
      match MethodOf(line)
      case None => Throw(st, Parsing(BAD_REQUEST))
      case Some(m) => Target(st.(verb := m), line[k + 1..])
  }

  // ---- phases -----------------------------------------------------------

  function HeaderBlock(st: State, block: string): Outcome
    requires Terminated(block)
  {
    var r := AddFields(st.headers, Lines(block), HeaderSyntax);
    var st' := st.(headers := r.fields);
    if r.ok then Ok(st') else Throw(st', Parsing(BAD_REQUEST))
  }

  const CONTENT_LENGTH: string := "content-length"

  /** After the header block: is there a body, and how long is it? */
  function BodyPlan(st: State, consumed: nat): Outcome {
    if st.verb == GET || st.verb == DELETE || CONTENT_LENGTH !in st.headers then
      Ok(st.(phase := Done))
    else
      match Stoull(st.headers[CONTENT_LENGTH].value)
      case NotANumber => Throw(st, InvalidArgument)
      case TooLarge => Throw(st, OutOfRange)
      case Number(n) =>
        Ok(st.(phase := Body, bodyLength := n, parsedTotal := st.parsedTotal + consumed))
  }

  function LinePhase(st: State, message: string): Outcome {
    if st.phase != RequestLine then Ok(st)
    else
      match Find(message, CRLF)
      case None => Ok(st)
      case Some(k) =>
        var o := StartLine(st, message[..k]);
        if o.Throw? then o else Ok(o.st.(phase := Headers, parsedTotal := k + 2))
  }

  const HEAD_END: string := "\r\n\r\n"

  lemma HeadEndTerminates(text: string, e: nat)
    requires MatchAt(text, HEAD_END, e)
    ensures e + 4 <= |text| && Terminated(text[..e + 2])
  {
    assert text[..e + 2][e..] == text[e..e + 4][..2] == CRLF;
  }

  function HeadPhase(st: State, message: string): Outcome
    requires st.phase == Headers ==> st.parsedTotal <= |message|
  {
    if st.phase != Headers then Ok(st)
    else
      var rest := message[st.parsedTotal..];
      match Find(rest, HEAD_END)
      case None => Ok(st)
      case Some(e) =>
        HeadEndTerminates(rest, e);
        HeadResult(st, rest[..e + 2], e + 4)
  }

  function HeadResult(st: State, block: string, consumed: nat): Outcome
    requires Terminated(block)
  {
    var o := HeaderBlock(st, block);
    if o.Throw? then o else BodyPlan(o.st, consumed)
  }

  function BodyPhase(st: State, message: string): State
    requires st.phase == Body ==> st.parsedTotal <= |message|
  {
    if st.phase == Body && |message| - st.parsedTotal >= st.bodyLength then
      st.(phase := Done, body := message[st.parsedTotal..][..st.bodyLength])
    else st
  }

  /** The prefix already consumed is within every longer message. */
  lemma LinePhaseBound(st: State, message: string)
    requires st.parsedTotal <= |message|
    ensures LinePhase(st, message).Ok? ==> LinePhase(st, message).st.parsedTotal <= |message|
  {
    if st.phase == RequestLine && Find(message, CRLF).Some? {
      assert MatchAt(message, CRLF, Find(message, CRLF).value);
    } else {
      assert LinePhase(st, message) == Ok(st);
    }
  }

  lemma LinePhaseIdle(st: State, message: string)
    ensures st.phase != RequestLine ==> LinePhase(st, message) == Ok(st)
  {
  }

  lemma LinePhaseUnconsumed(st: State, message: string)
    requires Unconsumed(st)
    ensures LinePhase(st, message).Ok? ==> Unconsumed(LinePhase(st, message).st)
  {
  }

  lemma HeadPhaseLeavesLine(st: State, message: string)
    requires st.phase == Headers && st.parsedTotal <= |message|
    ensures HeadPhase(st, message).Ok? ==> HeadPhase(st, message).st.phase != RequestLine
  {
    hide Lines, Stoull, Find;
  }

  lemma HeadPhaseIdle(st: State, message: string)
    requires st.parsedTotal <= |message|
    ensures st.phase != Headers ==> HeadPhase(st, message) == Ok(st)
  {
  }

  lemma HeadPhaseBound(st: State, message: string)
    requires st.parsedTotal <= |message|
    ensures HeadPhase(st, message).Ok? ==> HeadPhase(st, message).st.parsedTotal <= |message|
  {
    if st.phase == Headers && Find(message[st.parsedTotal..], HEAD_END).Some? {
      assert MatchAt(message[st.parsedTotal..], HEAD_END, Find(message[st.parsedTotal..], HEAD_END).value);
    }
  }

  /** One call of `parse` on the bytes received so far. */
  function Parse(st: State, message: string): (o: Outcome)
    requires st.parsedTotal <= |message|
    ensures o.Ok? ==> o.st.parsedTotal <= |message|
  {
    var l := LinePhase(st, message);
    LinePhaseBound(st, message);
    if l.Throw? then l
    else
      var h := HeadPhase(l.st, message);
      HeadPhaseBound(l.st, message);
      if h.Throw? then h else Ok(BodyPhase(h.st, message))
  }

  /** The whole message handed to a new parser at once. */
  function OneShot(message: string): (o: Outcome)
    ensures o.Ok? ==> o.st.parsedTotal <= |message|
  {
    Parse(FRESH, message)
  }
}
