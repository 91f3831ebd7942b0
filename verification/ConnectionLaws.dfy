/** What every run of a connection keeps. */
module ConnectionLaws {
  import opened Text
  import opened Protocol
  import opened ParserSpec
  import opened ConnectionSpec

  // ---- interest follows the program counter -----------------------------

  /** The interest set is the direction the coroutine waits for. */
  ghost predicate InterestMatches(c: Conn) {
    && (c.pc.Start? || c.pc.Reading? ==> c.interest == {In})
    && (c.pc.Writing? ==> c.interest == {Out})
  }

  ghost predicate Sound(svc: Service, c: Conn) {
    WellFormed(svc, c) && InterestMatches(c)
  }

  lemma JudgeKeepsSound(svc: Service, c: Conn, o: Outcome, idx: nat)
    requires svc.slack <= 1 && 0 < |c.readBuff| && idx <= |c.readBuff|
    requires !c.suspended && c.interest == {In}
    requires o.Ok? ==> o.st.parsedTotal <= idx + svc.slack
    ensures Sound(svc, Judge(svc, c, o, idx))
    ensures !Judge(svc, c, o, idx).suspended
    ensures !Judge(svc, c, o, idx).pc.Start?
  {
    hide DumpText, Completed;
    assert c.interest - {In} + {Out} == {Out};
  }

  lemma StepKeepsSound(svc: Service, c: Conn, io: Io)
    requires Sound(svc, c)
    ensures Sound(svc, Step(svc, c, io))
  {
    hide Parse, AnswerTo, Judge, Store, Concat;
    if Enabled(svc, c, io) {
      match io
      case Received(bytes) =>
        var idx := c.pc.readIdx + |bytes|;
        var c' := Store(c, c.pc.readIdx, bytes);
        StoreOnlyBuffer(c, c.pc.readIdx, bytes);
        JudgeKeepsSound(svc, c', Parse(c.pc.parser, View(svc, c'.readBuff, idx)), idx);
      case Resumed(timedOut) =>
        AfterYieldKeepsSound(svc, c, timedOut);
      case Accepted(count) =>
        assert c.interest - {Out} + {In} == {In};
      case Again(now) =>
      case Zero =>
      case Reset =>
      case Failed =>
    }
  }

  lemma AfterYieldKeepsSound(svc: Service, c: Conn, timedOut: bool)
    requires Sound(svc, c) && c.suspended && !c.pc.Finished?
    ensures Sound(svc, AfterYield(svc, c, timedOut))
  {
    hide Parse, AnswerTo, Judge;
    if c.pc.Reading? {
      var c' := c.(suspended := false, timeout := c.timeout || timedOut);
      var idx := c.pc.readIdx;
      JudgeKeepsSound(svc, c', Parse(c.pc.parser, View(svc, c'.readBuff, idx)), idx);
    }
  }

  lemma StoreOnlyBuffer(c: Conn, idx: nat, bytes: string)
    requires idx + |bytes| <= |c.readBuff|
    ensures Store(c, idx, bytes)
            == c.(readBuff := Store(c, idx, bytes).readBuff, received := c.received + bytes)
  {
  }

  /** On every run: free room before every read, interest equal to the awaited direction. */
  lemma {:induction false} RunKeepsSound(svc: Service, ios: seq<Io>)
    requires svc.slack <= 1
    ensures Sound(svc, Run(svc, CREATED, ios))
    decreases |ios|
  {
    hide Step;
    if ios != [] {
      RunKeepsSound(svc, ios[..|ios| - 1]);
      StepKeepsSound(svc, Run(svc, CREATED, ios[..|ios| - 1]), ios[|ios| - 1]);
    }
  }

  // ---- timeouts -----------------------------------------------------------

  /** A suspended coroutine resumed with the timeout flag set ends in that resume:
      quietly, unless it was writing an error response. */
  lemma TimedOutResumeFinishes(svc: Service, c: Conn, timedOut: bool)
    requires WellFormed(svc, c) && c.suspended && (c.timeout || timedOut)
    ensures Step(svc, c, Resumed(timedOut)).pc == Finished(c.pc == Writing(ErrorReply))
    ensures Step(svc, c, Resumed(timedOut)).sent == c.sent
  {
  }

  // ---- keep-alive -----------------------------------------------------------

  /** `getHeader` finds the earliest field of the name, in any spelling. */
  lemma ConnectionIsField(req: Request, fields: seq<Field>, text: string)
    requires req.headers == InsertAll(map[], fields)
    ensures ConnectionIs(req, text) <==>
            FirstNamed(fields, "Connection").Some? && FirstNamed(fields, "Connection").value.value == text
  {
    FoundUnderAnySpelling(map[], fields, "Connection");
    assert Fold("Connection") == "connection";
  }

  /** Which requests ask to stay, by their header lines: on HTTP/1.0 those whose first
      Connection field is "Keep-Alive", on HTTP/1.1 all but those where it is "close". */
  lemma ClosesByFields(req: Request, fields: seq<Field>)
    requires req.headers == InsertAll(map[], fields)
    ensures var f := FirstNamed(fields, "Connection");
            && (req.version == HTTP10 ==> (ShouldClose(req) <==> f.None? || f.value.value != "Keep-Alive"))
            && (req.version == HTTP11 ==> (ShouldClose(req) <==> f.Some? && f.value.value == "close"))
  {
    ConnectionIsField(req, fields, "Keep-Alive");
    ConnectionIsField(req, fields, "close");
  }

  /** On HTTP/1.0 a response says "keep-alive" exactly when the connection stays open; on
      HTTP/1.1 nothing is added. The callback's own headers and body are kept. */
  lemma KeepAliveAnnounced(svc: Service, st: State, r: Response)
    requires st.phase == Done && svc.callback(BuildRequest(st)) == Respond(r)
    ensures var a := AnswerTo(svc, Ok(st));
            && a.Answer? && a.kind.Normal?
            && a.text == DumpText(Response(st.version, r.code,
                 r.headers + (if st.version == HTTP10 && !a.kind.close
                              then [Field("Connection", "keep-alive")] else []), r.body))
            && (st.version == HTTP10 ==>
                  (a.kind.close <==> "connection" !in st.headers || st.headers["connection"].value != "Keep-Alive"))
            && (st.version == HTTP11 ==>
                  (a.kind.close <==> "connection" in st.headers && st.headers["connection"].value == "close"))
  {
    hide DumpText;
    assert r.headers + [] == r.headers;
  }

  // ---- buffer growth ------------------------------------------------------

  function Max(a: nat, b: nat): nat { if a < b then b else a }

  function Longest(segments: seq<string>): nat {
    if segments == [] then 0
    else Max(Longest(segments[..|segments| - 1]), |segments[|segments| - 1]|)
  }

  /** The first size, doubled any number of times. */
  predicate Doubled(n: nat) {
    n == INITIAL_BUFFER_SIZE || (n > INITIAL_BUFFER_SIZE && n % 2 == 0 && Doubled(n / 2))
  }

  lemma DoubledAgain(n: nat)
    requires Doubled(n)
    ensures Doubled(n + n)
  {
    assert (n + n) / 2 == n;
  }

  /** The read buffer is a doubling of its first size, and at most twice the longest
      request unless it has that size. */
  ghost predicate BufferBounded(c: Conn) {
    var longest := if c.pc.Reading? then Max(Longest(c.segments), c.pc.readIdx) else Longest(c.segments);
    Doubled(|c.readBuff|) && (c.pc.Finished? || |c.readBuff| <= Max(INITIAL_BUFFER_SIZE, 2 * longest))
  }

  lemma LongestAppend(segments: seq<string>, seg: string)
    ensures Longest(segments + [seg]) == Max(Longest(segments), |seg|)
  {
    assert (segments + [seg])[..|segments|] == segments;
  }

  lemma JudgeKeepsBounded(svc: Service, c: Conn, o: Outcome, idx: nat)
    requires idx <= |c.readBuff|
    requires |c.readBuff| <= Max(INITIAL_BUFFER_SIZE, 2 * Max(Longest(c.segments), idx))
    requires Doubled(|c.readBuff|)
    ensures BufferBounded(Judge(svc, c, o, idx))
  {
    hide AnswerTo, Longest, Zeros, Pending, Doubled;
    DoubledAgain(|c.readBuff|);
    LongestAppend(c.segments, c.readBuff[..idx]);
  }

  lemma StepKeepsBounded(svc: Service, c: Conn, io: Io)
    requires BufferBounded(c)
    ensures BufferBounded(Step(svc, c, io))
  {
    hide Parse, AnswerTo, Judge, Store, Longest;
    if Enabled(svc, c, io) && c.pc.Reading? {
      if io.Received? {
        var idx := c.pc.readIdx + |io.bytes|;
        var c' := Store(c, c.pc.readIdx, io.bytes);
        StoreOnlyBuffer(c, c.pc.readIdx, io.bytes);
        JudgeKeepsBounded(svc, c', Parse(c.pc.parser, View(svc, c'.readBuff, idx)), idx);
      } else if io.Resumed? {
        var c' := c.(suspended := false, timeout := c.timeout || io.timedOut);
        JudgeKeepsBounded(svc, c', Parse(c.pc.parser, View(svc, c.readBuff, c.pc.readIdx)), c.pc.readIdx);
      }
    }
  }

  /** The read buffer grows by doubling, and never past twice the longest request seen. */
  lemma {:induction false} RunKeepsBounded(svc: Service, ios: seq<Io>)
    ensures BufferBounded(Run(svc, CREATED, ios))
    decreases |ios|
  {
    hide Step;
    if ios != [] {
      RunKeepsBounded(svc, ios[..|ios| - 1]);
      StepKeepsBounded(svc, Run(svc, CREATED, ios[..|ios| - 1]), ios[|ios| - 1]);
    }
  }
}
