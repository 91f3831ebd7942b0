/** The view as coded is one byte longer than what was received. When does that matter? */
module ViewLaws {
  import opened Text
  import opened Protocol
  import opened ParserSpec
  import opened ParserLaws
  import opened RoundTrip
  import opened ConnectionSpec
  import opened ConnectionLaws
  import opened StreamLaws

  function Coded(svc: Service): Service { svc.(slack := 1) }

  /** The byte behind the first `idx` of a buffer. */
  function ByteAt(buff: string, idx: nat): char
    requires idx <= |buff|
  {
    (buff + "\0")[idx]
  }

  /** The extra byte is just the one the parser waits for after these bytes. */
  ghost predicate Misled(buff: string, idx: nat)
    requires idx <= |buff|
  {
    var v := buff[..idx];
    OneShot(v).Ok? && Completes(OneShot(v).st, v, ByteAt(buff, idx))
  }

  /** This system-call result makes the handler consult a misled parser. */
  ghost predicate Misleads(svc: Service, c: Conn, io: Io) {
    && Enabled(svc, c, io) && c.pc.Reading?
    && (io.Received? || (io.Resumed? && !c.timeout && !io.timedOut))
    && (if io.Received? then Misled(Store(c, c.pc.readIdx, io.bytes).readBuff, c.pc.readIdx + |io.bytes|)
        else Misled(c.readBuff, c.pc.readIdx))
  }

  lemma ExtraByteJudged(svc: Service, c: Conn, idx: nat)
    requires svc.slack == 0 && idx <= |c.readBuff|
    requires OneShot(c.readBuff[..idx]).Ok? ==> OneShot(c.readBuff[..idx]).st.phase != Error
    ensures var v := c.readBuff[..idx];
            var w := v + [ByteAt(c.readBuff, idx)];
            Judge(Coded(svc), c, OneShot(w), idx) == Judge(svc, c, OneShot(v), idx)
            <==> !Misled(c.readBuff, idx)
  {
    hide OneShot, DumpText;
    var v := c.readBuff[..idx];
    var b := ByteAt(c.readBuff, idx);
    if OneShot(v).Throw? {
      ParseExtends(v, v + [b]);
      AnswerIgnoresSlack(svc, OneShot(v));
    } else {
      ExtraByte(v, b);
      AnswerIgnoresSlack(svc, OneShot(v));
    }
  }

  lemma AnswerIgnoresSlack(svc: Service, o: Outcome)
    ensures AnswerTo(Coded(svc), o) == AnswerTo(svc, o)
  {
  }

  lemma CodedView(svc: Service, buff: string, idx: nat)
    requires svc.slack == 0 && idx <= |buff|
    ensures View(Coded(svc), buff, idx) == buff[..idx] + [ByteAt(buff, idx)]
  {
  }

  lemma CodedRead(svc: Service, c: Conn, bytes: string)
    requires svc.slack == 0 && StreamExact(svc, c) && Enabled(svc, c, Received(bytes))
    ensures Step(Coded(svc), c, Received(bytes)) == Step(svc, c, Received(bytes))
            <==> !Misleads(svc, c, Received(bytes))
  {
    hide OneShot, Parse, Judge, Idle, Misled, Concat;
    var idx := c.pc.readIdx + |bytes|;
    var c' := Store(c, c.pc.readIdx, bytes);
    var v := c'.readBuff[..idx];
    var old_v := c.readBuff[..c.pc.readIdx];
    assert v == old_v + bytes;
    ViewIsReceived(svc, c'.readBuff, idx);
    CodedView(svc, c'.readBuff, idx);
    ParseExtends(old_v, v);
    ParseExtends(old_v, v + [ByteAt(c'.readBuff, idx)]);
    PhaseNotError(v);
    ExtraByteJudged(svc, c', idx);
    assert Enabled(Coded(svc), c, Received(bytes));
  }

  lemma PhaseNotError(v: string)
    ensures OneShot(v).Ok? ==> OneShot(v).st.phase != Error
  {
    hide OneShot;
    if OneShot(v).Ok? {
      OneShotPhases(v);
    }
  }

  lemma CodedResume(svc: Service, c: Conn, timedOut: bool)
    requires svc.slack == 0 && StreamExact(svc, c) && Enabled(svc, c, Resumed(timedOut))
    ensures Step(Coded(svc), c, Resumed(timedOut)) == Step(svc, c, Resumed(timedOut))
            <==> !Misleads(svc, c, Resumed(timedOut))
  {
    hide OneShot, Parse, Judge, Idle, Misled, Concat;
    assert Enabled(Coded(svc), c, Resumed(timedOut));
    if c.pc.Reading? && !c.timeout && !timedOut {
      var idx := c.pc.readIdx;
      var v := c.readBuff[..idx];
      var c' := c.(suspended := false, timeout := c.timeout || timedOut);
      ViewIsReceived(svc, c.readBuff, idx);
      CodedView(svc, c.readBuff, idx);
      ParseIdempotent(v);
      ParseExtends(v, v + [ByteAt(c.readBuff, idx)]);
      PhaseNotError(v);
      ExtraByteJudged(svc, c', idx);
    }
  }

  /** One step of the handler as coded is the intended step exactly when it does not
      consult a misled parser. */
  lemma CodedStep(svc: Service, c: Conn, io: Io)
    requires svc.slack == 0 && StreamExact(svc, c) && Sound(svc, c)
    ensures Step(Coded(svc), c, io) == Step(svc, c, io) <==> !Misleads(svc, c, io)
  {
    hide OneShot, Parse, Judge, AfterRead, AfterWrite, AfterYield, Idle, Misled, OutputExact, Concat;
    assert WellFormed(Coded(svc), c);
    assert Enabled(Coded(svc), c, io) <==> Enabled(svc, c, io);
    if Enabled(svc, c, io) {
      match io
      case Received(bytes) => CodedRead(svc, c, bytes);
      case Resumed(timedOut) => CodedResume(svc, c, timedOut);
      case Accepted(count) =>
      case Again(now) =>
      case Zero =>
      case Reset =>
      case Failed =>
    }
  }

  /** The coded and the intended handler are in the same state all along a run. */
  ghost predicate AlwaysAgree(svc: Service, ios: seq<Io>)
    decreases |ios|
  {
    ios == []
    || (AlwaysAgree(svc, ios[..|ios| - 1]) && Run(Coded(svc), CREATED, ios) == Run(svc, CREATED, ios))
  }

  /** No step of the intended run consults a misled parser. */
  ghost predicate NeverMisled(svc: Service, ios: seq<Io>)
    decreases |ios|
  {
    ios == []
    || (NeverMisled(svc, ios[..|ios| - 1])
        && !Misleads(svc, Run(svc, CREATED, ios[..|ios| - 1]), ios[|ios| - 1]))
  }

  /** They agree exactly when the byte a parser waits for is never the stale one it sees. */
  lemma {:induction false} CodedRun(svc: Service, ios: seq<Io>)
    requires svc.slack == 0
    ensures AlwaysAgree(svc, ios) <==> NeverMisled(svc, ios)
    decreases |ios|
  {
    hide Step, Misleads;
    if ios != [] {
      var init := ios[..|ios| - 1];
      CodedRun(svc, init);
      RunKeepsSound(svc, init);
      RunKeepsStream(svc, init);
      CodedStep(svc, Run(svc, CREATED, init), ios[|ios| - 1]);
      if AlwaysAgree(svc, init) {
        AgreeNow(svc, init);
      }
    }
  }

  lemma AgreeNow(svc: Service, ios: seq<Io>)
    requires AlwaysAgree(svc, ios)
    ensures Run(Coded(svc), CREATED, ios) == Run(svc, CREATED, ios)
  {
    hide Step;
  }

  /** As coded, a body that is still one byte short counts as complete: the request is
      handed over with whatever byte lies behind the received ones. */
  lemma CodedViewCutsBody(verb: Method, path: string, pairs: seq<Field>, version: Version,
                          fields: seq<Field>, body: string, b: char)
    requires verb in {POST, PUT} && PathToken(path) && TargetPairs(pairs)
    requires fields != [] && HeaderTokens(fields)
    requires 0 < |body| <= ULLONG_MAX && Announces(fields, body)
    ensures var part := body[..|body| - 1];
            var got := MessageText(verb, path, pairs, version, fields, part);
            && Pending(OneShot(got))
            && OneShot(got + [b]).Ok? && OneShot(got + [b]).st.phase == Done
            && OneShot(got + [b]).st.body == part + [b]
  {
    hide LinePhase, StartLineText, InsertAll, HeaderLines, HeadPhase, HeaderTokens, TargetPairs, PathToken, Parse;
    var part := body[..|body| - 1];
    var head := HeaderLines(fields);
    var start := StartLineText(verb, path, pairs, version);
    var got := MessageText(verb, path, pairs, version, fields, part);
    var rest := head + CRLF + part;
    assert got == start + CRLF + rest;
    LineRoundTrip(verb, path, pairs, version, rest);
    var st := LinePhase(FRESH, got).st;
    assert got[|start| + 2..] == rest;
    HeadRoundTrip(st, got, fields, body, part);
    OneShotInBody(got, st, HeadPhase(st, got).st);
    assert got + [b] + "" == MessageText(verb, path, pairs, version, fields, part + [b]) + "";
    assert got + [b] + "" == got + [b];
    MessageRoundTrip(verb, path, pairs, version, fields, part + [b], "");
  }

  lemma OneShotInBody(m: string, l: State, h: State)
    requires l.parsedTotal <= |m| && LinePhase(FRESH, m) == Ok(l) && HeadPhase(l, m) == Ok(h)
    requires h.phase == Body && h.parsedTotal <= |m| && |m| - h.parsedTotal < h.bodyLength
    ensures OneShot(m) == Ok(h)
  {
    hide LinePhase, HeadPhase;
  }

  /** Such a run of the handler: what arrives in one read, one byte short of the body, is
      still awaited by the intended handler, while the one as coded has finished reading a
      request whose last body byte never arrived, and answers it. */
  lemma CodedRunCutsBody(svc: Service, verb: Method, path: string, pairs: seq<Field>, version: Version,
                         fields: seq<Field>, body: string)
    requires svc.slack == 0
    requires verb in {POST, PUT} && PathToken(path) && TargetPairs(pairs)
    requires fields != [] && HeaderTokens(fields)
    requires 0 < |body| <= ULLONG_MAX && Announces(fields, body)
    requires |MessageText(verb, path, pairs, version, fields, body[..|body| - 1])| <= INITIAL_BUFFER_SIZE
    ensures var part := body[..|body| - 1];
            var got := MessageText(verb, path, pairs, version, fields, part);
            var ios := [Resumed(false), Received(got)];
            var o := OneShot(got + "\0");
            && Run(svc, CREATED, ios).pc.Reading?
            && o.Ok? && o.st.phase == Done && o.st.body == part + "\0"
            && Run(Coded(svc), CREATED, ios).pc
               == (if AnswerTo(svc, o).Answer? then Writing(AnswerTo(svc, o).kind) else Finished(true))
            && !AlwaysAgree(svc, ios)
  {
    hide StartLineText, HeaderLines, Announces, HeaderTokens, TargetPairs, PathToken, OneShot, AnswerTo, Run,
         AlwaysAgree;
    var got := MessageText(verb, path, pairs, version, fields, body[..|body| - 1]);
    assert |got| > 0;
    CodedViewCutsBody(verb, path, pairs, version, fields, body, '\0');
    assert got + ['\0'] == got + "\0";
    FirstRead(svc, got);
    AnswerIgnoresSlack(svc, OneShot(got + "\0"));
    var ios := [Resumed(false), Received(got)];
    if AlwaysAgree(svc, ios) {
      AgreeNow(svc, ios);
    }
  }

  /** The first read of a connection, under either view. */
  lemma FirstRead(svc: Service, got: string)
    requires svc.slack == 0 && 0 < |got| <= INITIAL_BUFFER_SIZE
    ensures var ios := [Resumed(false), Received(got)];
            var c := Store(CREATED.(pc := Reading(FRESH, 0), suspended := false), 0, got);
            && Run(svc, CREATED, ios) == Judge(svc, c, OneShot(got), |got|)
            && Run(Coded(svc), CREATED, ios) == Judge(Coded(svc), c, OneShot(got + "\0"), |got|)
  {
    hide Parse, Judge;
    var first := [Resumed(false)];
    var ios := first + [Received(got)];
    assert ios == [Resumed(false), Received(got)];
    assert ios[..1] == first && first[..0] == [];
    RunOnce(svc, Resumed(false));
    RunOnce(Coded(svc), Resumed(false));
    var c := CREATED.(pc := Reading(FRESH, 0), suspended := false);
    var c' := Store(c, 0, got);
    ViewIsReceived(svc, c'.readBuff, |got|);
    CodedView(svc, c'.readBuff, |got|);
    assert c'.readBuff[..|got|] == got;
    assert ByteAt(c'.readBuff, |got|) == '\0';
  }

  lemma RunOnce(svc: Service, io: Io)
    ensures Run(svc, CREATED, [io]) == Step(svc, CREATED, io)
  {
    hide Step;
    assert [io][..0] == [];
  }
}
