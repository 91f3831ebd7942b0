/** The bytes a connection writes, as a function of the bytes it reads. */
module StreamLaws {
  import opened Text
  import opened Protocol
  import opened ParserSpec
  import opened ParserLaws
  import opened ConnectionSpec
  import opened ConnectionLaws

  /** The answer due to one request's bytes, parsed at once by a new parser. */
  function AnswerOf(svc: Service, segment: string): Answer {
    if Pending(OneShot(segment)) then Dies else AnswerTo(svc, OneShot(segment))
  }

  function AnswerText(svc: Service, segment: string): string {
    var a := AnswerOf(svc, segment);
    if a.Answer? then a.text else ""
  }

  function OutputOf(svc: Service, segments: seq<string>): string {
    if segments == [] then ""
    else OutputOf(svc, segments[..|segments| - 1]) + AnswerText(svc, segments[|segments| - 1])
  }

  /** Every recorded segment is one answerable request, and only the last answer
      may close the connection. */
  ghost predicate Answered(svc: Service, segments: seq<string>) {
    && (forall i :: 0 <= i < |segments| ==> AnswerOf(svc, segments[i]).Answer?)
    && (forall i :: 0 <= i < |segments| - 1 ==> AnswerOf(svc, segments[i]).kind == Normal(false))
  }

  /** Sent are the answers in request order, all complete except possibly the last. */
  ghost predicate OutputExact(svc: Service, c: Conn) {
    var n := |c.segments|;
    && Answered(svc, c.segments)
    && (n == 0 ==> c.sent == "")
    && (n > 0 ==>
          && c.writeBuff == AnswerText(svc, c.segments[n - 1])
          && c.written <= |c.writeBuff|
          && c.sent == OutputOf(svc, c.segments[..n - 1]) + c.writeBuff[..c.written])
  }

  /** All answers so far are complete and none of them closes. */
  ghost predicate Idle(svc: Service, c: Conn) {
    && OutputExact(svc, c)
    && (c.segments != [] ==>
          && c.written == |c.writeBuff|
          && AnswerOf(svc, c.segments[|c.segments| - 1]).kind == Normal(false))
  }

  /** The received bytes are the answered segments followed by the pending request,
      and the parser is where a new parser on the pending bytes would be. */
  ghost predicate StreamExact(svc: Service, c: Conn) {
    match c.pc
    case Start => Idle(svc, c) && c.segments == [] && c.received == ""
    case Reading(parser, idx) =>
      && Idle(svc, c)
      && idx <= |c.readBuff|
      && c.received == Concat(c.segments) + c.readBuff[..idx]
      && OneShot(c.readBuff[..idx]) == Ok(parser) && parser.phase != Done
    case Writing(kind) =>
      && OutputExact(svc, c)
      && c.segments != [] && c.received == Concat(c.segments)
      && kind == AnswerOf(svc, c.segments[|c.segments| - 1]).kind
    case Finished(_) => OutputExact(svc, c) && Concat(c.segments) <= c.received
  }

  lemma FreshIsPending()
    ensures OneShot("") == Ok(FRESH)
  {
  }

  /** Starting to write one more answer. */
  lemma AnswerKeepsStream(svc: Service, c: Conn, seg: string)
    requires Idle(svc, c) && c.received == Concat(c.segments) + seg && AnswerOf(svc, seg).Answer?
    ensures var a := AnswerOf(svc, seg);
            StreamExact(svc, BeginWrite(c, a.text, a.kind).(segments := c.segments + [seg]))
  {
    hide AnswerOf, OutputOf, Concat;
    var a := AnswerOf(svc, seg);
    var c' := BeginWrite(c, a.text, a.kind).(segments := c.segments + [seg]);
    ConcatAppend(c.segments, seg);
    IdleOutput(svc, c);
    assert c'.segments[..|c.segments|] == c.segments;
    assert c'.writeBuff[..0] == "";
    assert c'.sent == OutputOf(svc, c.segments) + "";
  }

  lemma ConcatPrefix(segments: seq<string>, rest: string)
    ensures Concat(segments) <= Concat(segments) + rest
  {
  }

  /** Judging the pending bytes keeps the output exact. */
  lemma JudgeKeepsStream(svc: Service, c: Conn, idx: nat)
    requires Idle(svc, c) && idx <= |c.readBuff|
    requires c.received == Concat(c.segments) + c.readBuff[..idx]
    ensures StreamExact(svc, Judge(svc, c, OneShot(c.readBuff[..idx]), idx))
  {
    hide OneShot, AnswerTo, Concat, OutputOf, OutputExact;
    var seg := c.readBuff[..idx];
    var o := OneShot(seg);
    var c' := Judge(svc, c, o, idx);
    if Pending(o) {
      assert c'.readBuff[..idx] == seg;
      IdleSurvives(svc, c, c');
    } else if AnswerTo(svc, o).Answer? {
      assert AnswerOf(svc, seg) == AnswerTo(svc, o);
      AnswerKeepsStream(svc, c, seg);
    } else {
      IdleSurvives(svc, c, c');
      ConcatPrefix(c.segments, seg);
    }
  }

  lemma OutputSurvives(svc: Service, c: Conn, c': Conn)
    requires OutputExact(svc, c)
    requires c'.segments == c.segments && c'.sent == c.sent
    requires c'.writeBuff == c.writeBuff && c'.written == c.written
    ensures OutputExact(svc, c')
  {
    hide OutputOf, Answered, AnswerText;
  }

  /** Only the buffers and counters of the exchange matter. */
  lemma IdleSurvives(svc: Service, c: Conn, c': Conn)
    requires Idle(svc, c)
    requires c'.segments == c.segments && c'.sent == c.sent
    requires c'.writeBuff == c.writeBuff && c'.written == c.written
    ensures Idle(svc, c')
  {
    hide AnswerOf, OutputOf, Answered, AnswerText;
  }

  lemma IdleOutput(svc: Service, c: Conn)
    requires Idle(svc, c)
    ensures c.sent == OutputOf(svc, c.segments)
  {
    hide AnswerOf;
    var n := |c.segments|;
    if n > 0 {
      assert c.writeBuff[..c.written] == c.writeBuff;
    }
  }

  lemma ViewIsReceived(svc: Service, buff: string, idx: nat)
    requires svc.slack == 0 && idx <= |buff|
    ensures View(svc, buff, idx) == buff[..idx]
  {
  }

  lemma ReadKeepsStream(svc: Service, c: Conn, bytes: string)
    requires svc.slack == 0 && Enabled(svc, c, Received(bytes)) && StreamExact(svc, c)
    ensures StreamExact(svc, Step(svc, c, Received(bytes)))
  {
    hide OneShot, Parse, AnswerOf, Concat, OutputOf, Judge, Answered;
    var idx := c.pc.readIdx;
    var c' := Store(c, idx, bytes);
    StoreOnlyBuffer(c, idx, bytes);
    var seg := c'.readBuff[..idx + |bytes|];
    assert seg == c.readBuff[..idx] + bytes;
    ViewIsReceived(svc, c'.readBuff, idx + |bytes|);
    ParseExtends(c.readBuff[..idx], seg);
    assert c'.received == Concat(c'.segments) + seg;
    JudgeKeepsStream(svc, c', idx + |bytes|);
  }

  lemma YieldKeepsStream(svc: Service, c: Conn, timedOut: bool)
    requires svc.slack == 0 && Enabled(svc, c, Resumed(timedOut)) && StreamExact(svc, c)
    ensures StreamExact(svc, Step(svc, c, Resumed(timedOut)))
  {
    hide OneShot, Parse, AnswerOf, OutputOf, Judge, Answered;
    var c' := c.(suspended := false, timeout := c.timeout || timedOut);
    match c.pc
    case Start => FreshIsPending();
    case Reading(parser, idx) =>
      ViewIsReceived(svc, c.readBuff, idx);
      ParseIdempotent(c.readBuff[..idx]);
      JudgeKeepsStream(svc, c', idx);
    case Writing(kind) =>
    case Finished(_) =>
  }

  /** Bytes taken by the socket extend what was sent by the next part of the answer. */
  lemma SentExtends(svc: Service, c: Conn, w: nat)
    requires OutputExact(svc, c) && c.segments != [] && c.written <= w <= |c.writeBuff|
    ensures OutputExact(svc, c.(written := w, sent := c.sent + c.writeBuff[c.written..w]))
  {
    hide Answered, OutputOf, AnswerText;
    assert c.writeBuff[..c.written] + c.writeBuff[c.written..w] == c.writeBuff[..w];
    var done := OutputOf(svc, c.segments[..|c.segments| - 1]);
    assert done + c.writeBuff[..c.written] + c.writeBuff[c.written..w] == done + c.writeBuff[..w];
  }

  /** A complete answer that does not close leaves the connection idle, waiting for a request. */
  lemma NextKeepsStream(svc: Service, c: Conn)
    requires Idle(svc, c) && c.received == Concat(c.segments)
    ensures StreamExact(svc, NextRequest(c))
  {
    hide Idle, OneShot, Concat;
    FreshIsPending();
    IdleSurvives(svc, c, NextRequest(c));
    assert c.readBuff[..0] == "";
    assert c.received == Concat(c.segments) + "";
  }

  lemma WriteKeepsStream(svc: Service, c: Conn, count: nat)
    requires Enabled(svc, c, Accepted(count)) && StreamExact(svc, c)
    ensures StreamExact(svc, Step(svc, c, Accepted(count)))
  {
    hide OneShot, AnswerOf, Concat, OutputExact, NextRequest, AfterRead, AfterYield;
    var w := c.written + count;
    var c' := c.(written := w, sent := c.sent + c.writeBuff[c.written..w]);
    SentExtends(svc, c, w);
    if w == |c.writeBuff| {
      if c.pc.kind == Normal(false) {
        NextKeepsStream(svc, c');
      } else {
        OutputSurvives(svc, c', Finish(c', false));
      }
    }
  }

  lemma StepKeepsStream(svc: Service, c: Conn, io: Io)
    requires svc.slack == 0 && StreamExact(svc, c)
    ensures StreamExact(svc, Step(svc, c, io))
  {
    hide OneShot, AnswerOf, OutputOf, Concat, Answered, AfterRead, AfterWrite, AfterYield;
    if Enabled(svc, c, io) {
      match io
      case Received(bytes) => ReadKeepsStream(svc, c, bytes);
      case Resumed(timedOut) => YieldKeepsStream(svc, c, timedOut);
      case Accepted(count) => WriteKeepsStream(svc, c, count);
      case Again(now) =>
      case Zero =>
      case Reset =>
      case Failed =>
    }
  }

  /** Output exactness: on every run, for every split of the input into reads and every
      placement of suspensions, what was sent is what the segments' one-shot parses demand. */
  lemma {:induction false} RunKeepsStream(svc: Service, ios: seq<Io>)
    requires svc.slack == 0
    ensures StreamExact(svc, Run(svc, CREATED, ios))
    decreases |ios|
  {
    hide Step;
    if ios != [] {
      RunKeepsStream(svc, ios[..|ios| - 1]);
      StepKeepsStream(svc, Run(svc, CREATED, ios[..|ios| - 1]), ios[|ios| - 1]);
    }
  }

  // ---- keep-alive ---------------------------------------------------------

  /** The request that a segment is, if the callback answers it with `r`. */
  ghost predicate AnsweredWith(svc: Service, segment: string, req: Request, r: Response) {
    && OneShot(segment).Ok? && !Pending(OneShot(segment))
    && req == BuildRequest(OneShot(segment).st) && svc.callback(req) == Respond(r)
  }

  function Announcement(req: Request): seq<Field> {
    if req.version == HTTP10 && !ShouldClose(req) then [Field("Connection", "keep-alive")] else []
  }

  /** On every run, after every answer whose last byte is just being written: the connection
      is kept exactly when the callback answered a request that asks to stay. What was
      written is the callback's response under the request's version, and on HTTP/1.0 it
      announces the keeping exactly then. */
  lemma KeptAsAsked(svc: Service, ios: seq<Io>, count: nat)
    requires svc.slack == 0
    requires var c := Run(svc, CREATED, ios);
             Enabled(svc, c, Accepted(count)) && c.written + count == |c.writeBuff|
    ensures var c := Run(svc, CREATED, ios);
            var c' := Run(svc, CREATED, ios + [Accepted(count)]);
            && c.segments != []
            && var seg := c.segments[|c.segments| - 1];
               && (c'.pc.Reading? <==> exists req, r :: AnsweredWith(svc, seg, req, r) && !ShouldClose(req))
               && (c'.pc.Reading? || c'.pc == Finished(false))
               && forall req, r :: AnsweredWith(svc, seg, req, r) ==>
                    c'.sent == OutputOf(svc, c.segments[..|c.segments| - 1])
                               + DumpText(Response(req.version, r.code, r.headers + Announcement(req), r.body))
  {
    hide OneShot, DumpText, OutputOf, AfterRead, AfterYield, AnswerOf, AnsweredWith, ShouldClose, Concat,
         Announcement;
    var c := Run(svc, CREATED, ios);
    var ios' := ios + [Accepted(count)];
    RunKeepsStream(svc, ios);
    RunKeepsStream(svc, ios');
    assert ios'[..|ios'| - 1] == ios;
    var seg := c.segments[|c.segments| - 1];
    AnswerOfResponse(svc, seg);
    var c' := Step(svc, c, Accepted(count));
    assert c'.writeBuff[..c'.written] == c'.writeBuff;
  }

  lemma AnswerOfResponse(svc: Service, seg: string)
    ensures forall req, r :: AnsweredWith(svc, seg, req, r) ==>
              AnswerOf(svc, seg) == Answer.Answer(
                DumpText(Response(req.version, r.code, r.headers + Announcement(req), r.body)),
                Normal(ShouldClose(req)))
    ensures AnswerOf(svc, seg).Answer? && AnswerOf(svc, seg).kind == Normal(false) ==>
              exists req, r :: AnsweredWith(svc, seg, req, r) && !ShouldClose(req)
  {
    hide OneShot, DumpText;
    forall req, r | AnsweredWith(svc, seg, req, r)
      ensures AnswerOf(svc, seg) == Answer.Answer(
                DumpText(Response(req.version, r.code, r.headers + Announcement(req), r.body)),
                Normal(ShouldClose(req)))
    {
      KeepAliveAnnounced(svc, OneShot(seg).st, r);
    }
    var a := AnswerOf(svc, seg);
    if a.Answer? && a.kind == Normal(false) {
      var req := BuildRequest(OneShot(seg).st);
      assert AnsweredWith(svc, seg, req, svc.callback(req).response);
    }
  }
}
