/** Printer, parser and connection together: a client that sends printed messages one at a
    time gets the answers to exactly those requests. */
module Exchange {
  import opened Text
  import opened Protocol
  import opened ParserSpec
  import opened ParserLaws
  import opened RoundTrip
  import opened ConnectionSpec
  import opened ConnectionLaws
  import opened StreamLaws

  /** What the client means to ask. */
  datatype Message = Message(
    verb: Method,
    path: string,
    pairs: seq<Field>,
    version: Version,
    fields: seq<Field>,
    body: string)

  /** Tokens free of the delimiters, at least one header, and a body exactly when one is
      announced. */
  predicate Printable(m: Message) {
    && PathToken(m.path) && TargetPairs(m.pairs)
    && m.fields != [] && HeaderTokens(m.fields)
    && (if Carries(m.verb, m.fields) then Announces(m.fields, m.body) && |m.body| <= ULLONG_MAX
        else m.body == "")
  }

  function Printed(m: Message): string {
    MessageText(m.verb, m.path, m.pairs, m.version, m.fields, m.body)
  }

  function Meant(m: Message): Request {
    Request(InsertAll(map[], m.fields), InsertAll(map[], m.pairs), m.body, m.path, m.version, m.verb)
  }

  lemma PrintedIsMeant(m: Message)
    requires Printable(m)
    ensures OneShot(Printed(m)).Ok? && OneShot(Printed(m)).st.phase == Done
    ensures BuildRequest(OneShot(Printed(m)).st) == Meant(m)
  {
    hide OneShot, MessageText, InsertAll, Carries, Announces, PathToken, TargetPairs, HeaderTokens;
    MessageRoundTrip(m.verb, m.path, m.pairs, m.version, m.fields, m.body, "");
    assert Printed(m) + "" == Printed(m);
  }

  // ---- no message is complete before its last byte ------------------------------

  /** What a parser that is done must have seen of a message. */
  lemma DoneHasSeen(p: string, m: string)
    requires p <= m && OneShot(p).Ok? && OneShot(p).st.phase == Done
    ensures var l := LinePhase(FRESH, m);
            && l.Ok? && l.st.phase == Headers && l.st.parsedTotal <= |p|
            && var e := Find(m[l.st.parsedTotal..], HEAD_END);
               && e.Some? && l.st.parsedTotal + e.value + 4 <= |p|
               && var h := HeadPhase(l.st, m);
                  h.Ok? && (h.st.phase == Body ==> h.st.parsedTotal + h.st.bodyLength <= |p|)
  {
    hide StartLine, HeadResult, Find, MatchAt;
    LineStable(p, m);
    LinePhaseBound(FRESH, p);
    var l := LinePhase(FRESH, p).st;
    HeadStable(l, p, m);
    HeadPhaseBound(l, p);
    var seen, all := p[l.parsedTotal..], m[l.parsedTotal..];
    assert seen <= all;
    if Find(seen, HEAD_END).Some? {
      FindExtends(seen, all, HEAD_END);
      FindBound(seen, HEAD_END);
    }
  }

  /** Every proper prefix of a printed message is still pending: the request is complete
      with its last byte and not before. */
  lemma PrefixPending(m: Message, k: nat)
    requires Printable(m) && k < |Printed(m)|
    ensures Pending(OneShot(Printed(m)[..k]))
  {
    hide OneShot, LinePhase, HeadPhase, StartLineText, InsertAll, HeaderLines, HeaderTokens, TargetPairs,
         PathToken, Announces, Carries, Find;
    var text := Printed(m);
    var p := text[..k];
    PrintedIsMeant(m);
    ParseExtends(p, text);
    if OneShot(p).Ok? && OneShot(p).st.phase == Done {
      PrintedEnd(m);
      DoneHasSeen(p, text);
    }
  }

  /** Where the head and the body of a printed message end. */
  lemma PrintedEnd(m: Message)
    requires Printable(m)
    ensures var text := Printed(m);
            var l := LinePhase(FRESH, text);
            && l.Ok? && l.st.phase == Headers && l.st.parsedTotal <= |text|
            && var e := Find(text[l.st.parsedTotal..], HEAD_END);
               && e.Some?
               && var h := HeadPhase(l.st, text);
                  && h.Ok?
                  && (if h.st.phase == Body then h.st.parsedTotal + h.st.bodyLength == |text|
                      else l.st.parsedTotal + e.value + 4 == |text|)
  {
    hide LinePhase, StartLineText, InsertAll, HeaderLines, HeadPhase, Announces, HeaderTokens, TargetPairs,
         PathToken, Carries, Find;
    var start := StartLineText(m.verb, m.path, m.pairs, m.version);
    var head := HeaderLines(m.fields);
    var rest := head + CRLF + m.body;
    var text := Printed(m);
    assert text == start + CRLF + rest;
    LineRoundTrip(m.verb, m.path, m.pairs, m.version, rest);
    assert text[|start| + 2..] == rest;
    HeadEndFound(m.fields, m.body);
    HeadRoundTrip(LinePhase(FRESH, text).st, text, m.fields, m.body, m.body);
  }

  // ---- one message at a time ------------------------------------------------------

  function Wire(ms: seq<Message>): (texts: seq<string>)
    ensures |texts| == |ms|
    ensures forall i :: 0 <= i < |ms| ==> texts[i] == Printed(ms[i])
  {
    seq(|ms|, i requires 0 <= i < |ms| => Printed(ms[i]))
  }

  /** Bytes arrive only from the message whose turn it is. */
  ghost predicate InTurn(svc: Service, texts: seq<string>, c: Conn, io: Io) {
    io.Received? && Enabled(svc, c, io) ==>
      |c.segments| < |texts| && c.readBuff[..c.pc.readIdx] + io.bytes <= texts[|c.segments|]
  }

  ghost predicate OneAtATime(svc: Service, texts: seq<string>, ios: seq<Io>)
    decreases |ios|
  {
    ios == []
    || (OneAtATime(svc, texts, ios[..|ios| - 1])
        && InTurn(svc, texts, Run(svc, CREATED, ios[..|ios| - 1]), ios[|ios| - 1]))
  }

  ghost predicate Messages(texts: seq<string>) {
    forall i :: 0 <= i < |texts| ==>
      && texts[i] != "" && !Pending(OneShot(texts[i]))
      && forall k :: 0 <= k < |texts[i]| ==> Pending(OneShot(texts[i][..k]))
  }

  /** The answered segments are the first messages, and what has arrived of the next one
      is not yet all of it. */
  ghost predicate Follows(texts: seq<string>, c: Conn) {
    && |c.segments| <= |texts| && c.segments == texts[..|c.segments|]
    && (c.pc.Reading? ==>
          && c.pc.readIdx <= |c.readBuff|
          && (if |c.segments| < |texts|
              then c.pc.readIdx < |texts[|c.segments|]|
                   && c.readBuff[..c.pc.readIdx] == texts[|c.segments|][..c.pc.readIdx]
              else c.pc.readIdx == 0))
  }

  lemma JudgeFollows(svc: Service, texts: seq<string>, c: Conn, idx: nat)
    requires Messages(texts) && |c.segments| <= |texts| && c.segments == texts[..|c.segments|]
    requires idx <= |c.readBuff|
    requires if |c.segments| < |texts| then c.readBuff[..idx] <= texts[|c.segments|] else idx == 0
    ensures Follows(texts, Judge(svc, c, OneShot(c.readBuff[..idx]), idx))
  {
    hide OneShot, AnswerTo;
    var seg := c.readBuff[..idx];
    var n := |c.segments|;
    if n < |texts| {
      assert seg == texts[n][..idx];
      if idx == |texts[n]| {
        assert seg == texts[n];
        assert texts[..n + 1] == texts[..n] + [texts[n]];
      } else {
        assert Pending(OneShot(texts[n][..idx]));
      }
    } else {
      assert seg == "";
      assert Pending(OneShot("")) by { FreshIsPending(); }
    }
    var c' := Judge(svc, c, OneShot(seg), idx);
    assert idx <= |c'.readBuff| && c'.readBuff[..idx] == seg;
  }

  lemma StepFollows(svc: Service, texts: seq<string>, c: Conn, io: Io)
    requires svc.slack == 0 && StreamExact(svc, c) && Follows(texts, c)
    requires Messages(texts) && InTurn(svc, texts, c, io)
    ensures Follows(texts, Step(svc, c, io))
  {
    hide OneShot, Parse, Judge, Messages, Idle, OutputExact, Concat;
    if Enabled(svc, c, io) {
      match io
      case Received(bytes) =>
        var idx := c.pc.readIdx + |bytes|;
        var c' := Store(c, c.pc.readIdx, bytes);
        StoreOnlyBuffer(c, c.pc.readIdx, bytes);
        ViewIsReceived(svc, c'.readBuff, idx);
        ParseExtends(c.readBuff[..c.pc.readIdx], c'.readBuff[..idx]);
        JudgeFollows(svc, texts, c', idx);
      case Resumed(timedOut) =>
        if c.pc.Reading? {
          var idx := c.pc.readIdx;
          ViewIsReceived(svc, c.readBuff, idx);
          ParseIdempotent(c.readBuff[..idx]);
          JudgeFollows(svc, texts, c.(suspended := false, timeout := c.timeout || timedOut), idx);
        }
        NotEmpty(texts);
      case Accepted(count) => NotEmpty(texts);
      case Again(now) =>
      case Zero =>
      case Reset =>
      case Failed =>
    }
  }

  lemma NotEmpty(texts: seq<string>)
    requires Messages(texts)
    ensures forall i :: 0 <= i < |texts| ==> |texts[i]| > 0
  {
    hide OneShot;
  }

  lemma {:induction false} RunFollows(svc: Service, texts: seq<string>, ios: seq<Io>)
    requires svc.slack == 0 && Messages(texts) && OneAtATime(svc, texts, ios)
    ensures Follows(texts, Run(svc, CREATED, ios))
    decreases |ios|
  {
    hide Step, Messages, InTurn, StreamExact;
    if ios != [] {
      var init := ios[..|ios| - 1];
      RunFollows(svc, texts, init);
      RunKeepsStream(svc, init);
      StepFollows(svc, texts, Run(svc, CREATED, init), ios[|ios| - 1]);
    }
  }

  lemma WireMessages(ms: seq<Message>)
    requires forall i :: 0 <= i < |ms| ==> Printable(ms[i])
    ensures Messages(Wire(ms))
  {
    hide OneShot, Printable, Printed;
    var texts := Wire(ms);
    forall i | 0 <= i < |texts|
      ensures texts[i] != "" && !Pending(OneShot(texts[i]))
              && forall k :: 0 <= k < |texts[i]| ==> Pending(OneShot(texts[i][..k]))
    {
      PrintedIsMeant(ms[i]);
      FreshIsPending();
      forall k | 0 <= k < |texts[i]| ensures Pending(OneShot(texts[i][..k])) {
        PrefixPending(ms[i], k);
      }
    }
  }

  function DeservedText(svc: Service, m: Message): string {
    var a := AnswerToRequest(svc, Meant(m));
    if a.Answer? then a.text else ""
  }

  function DeservedTexts(svc: Service, ms: seq<Message>): string {
    if ms == [] then "" else DeservedTexts(svc, ms[..|ms| - 1]) + DeservedText(svc, ms[|ms| - 1])
  }

  lemma PrintedDeserves(svc: Service, m: Message)
    requires Printable(m)
    ensures AnswerOf(svc, Printed(m)) == AnswerToRequest(svc, Meant(m))
    ensures AnswerText(svc, Printed(m)) == DeservedText(svc, m)
  {
    hide OneShot, Printable, Printed, Meant, DumpText, Completed, ShouldClose;
    PrintedIsMeant(m);
  }

  lemma {:induction false} OutputDeserved(svc: Service, ms: seq<Message>)
    requires forall i :: 0 <= i < |ms| ==> Printable(ms[i])
    ensures OutputOf(svc, Wire(ms)) == DeservedTexts(svc, ms)
    decreases |ms|
  {
    hide AnswerText, Printable, Printed, DeservedText;
    if ms != [] {
      var init := ms[..|ms| - 1];
      OutputDeserved(svc, init);
      PrintedDeserves(svc, ms[|ms| - 1]);
      assert Wire(ms)[..|ms| - 1] == Wire(init);
    }
  }

  /** What has been received is the answered messages, and while waiting for the next one a
      proper part of it. */
  lemma ReceivedFollows(svc: Service, ms: seq<Message>, c: Conn)
    requires StreamExact(svc, c) && Follows(Wire(ms), c)
    ensures var n := |c.segments|;
            && n <= |ms| && c.segments == Wire(ms[..n])
            && (c.pc.Writing? ==> c.received == Concat(Wire(ms[..n])))
            && (c.pc.Reading? && n == |ms| ==> c.received == Concat(Wire(ms)))
            && (c.pc.Reading? && n < |ms| ==>
                  exists k :: 0 <= k < |Printed(ms[n])|
                              && c.received == Concat(Wire(ms[..n])) + Printed(ms[n])[..k])
  {
    hide Printed, OutputExact, Idle, OneShot, Concat;
    var n := |c.segments|;
    assert c.segments == Wire(ms[..n]);
    if c.pc.Reading? && n < |ms| {
      var k := c.pc.readIdx;
      assert c.received == Concat(Wire(ms[..n])) + Printed(ms[n])[..k];
    } else if c.pc.Reading? {
      assert ms[..n] == ms && c.readBuff[..0] == "";
      assert c.received == Concat(Wire(ms)) + "";
    }
  }

  /** A client that sends printed messages one at a time, in any split into reads and with
      any suspensions, is sent the answers to exactly the requests it meant, in order, all
      complete except possibly the last; every message received in full has been answered
      or is being answered, as long as the connection lasts. */
  lemma ExchangeExact(svc: Service, ms: seq<Message>, ios: seq<Io>)
    requires svc.slack == 0 && forall i :: 0 <= i < |ms| ==> Printable(ms[i])
    requires OneAtATime(svc, Wire(ms), ios)
    ensures var c := Run(svc, CREATED, ios);
            var n := |c.segments|;
            && n <= |ms|
            && (n == 0 ==> c.sent == "")
            && (n > 0 ==>
                  && AnswerToRequest(svc, Meant(ms[n - 1])).Answer?
                  && c.written <= |DeservedText(svc, ms[n - 1])|
                  && c.sent == DeservedTexts(svc, ms[..n - 1]) + DeservedText(svc, ms[n - 1])[..c.written])
            && (c.pc.Reading? && n > 0 ==> c.written == |DeservedText(svc, ms[n - 1])|)
            && (c.pc.Writing? ==> c.received == Concat(Wire(ms[..n])))
            && (c.pc.Reading? && n == |ms| ==> c.received == Concat(Wire(ms)))
            && (c.pc.Reading? && n < |ms| ==>
                  exists k :: 0 <= k < |Printed(ms[n])|
                              && c.received == Concat(Wire(ms[..n])) + Printed(ms[n])[..k])
  {
    hide Run, Printable, Printed, Meant, DumpText, AnswerOf, AnswerText, OneShot, OutputOf, AnswerToRequest,
         DeservedText, DeservedTexts, OneAtATime, Messages, Concat;
    WireMessages(ms);
    RunFollows(svc, Wire(ms), ios);
    RunKeepsStream(svc, ios);
    var c := Run(svc, CREATED, ios);
    var n := |c.segments|;
    ReceivedFollows(svc, ms, c);
    if n > 0 {
      PrintedDeserves(svc, ms[n - 1]);
      OutputDeserved(svc, ms[..n - 1]);
      assert c.segments[n - 1] == Printed(ms[n - 1]);
      assert c.segments[..n - 1] == Wire(ms[..n - 1]);
    }
  }
}
