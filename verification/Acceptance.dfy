/** The language of the request parser: which messages are accepted and as what request,
    which are answered by which exception, and which still wait, on every input. */
module Acceptance {
  import opened Text
  import opened Protocol
  import opened ParserSpec
  import opened RoundTrip
  import opened Verdicts
  import opened Dissection
  import opened ConnectionSpec
  import opened StreamLaws
  import opened Printing

  // ---- what the parts say ----------------------------------------------------------

  ghost predicate Supported(version: string) { exists v: Version :: version == VersionText(v) }

  /** Method, target and version of a start line, the target naming path and query. */
  ghost predicate LineSays(line: string, req: Request) {
    exists token, target, version ::
      && ThreeParts(line, token, target, version)
      && MethodText(req.verb) <= line && version == VersionText(req.version)
      && req.path != "" && Divides(target, req.path, req.query)
  }

  ghost predicate GoodLine(line: string) {
    exists token, target, version ::
      ThreeParts(line, token, target, version) && KnownToken(line) && GoodTarget(target) && Supported(version)
  }

  /** Good but for a version that is not supported. */
  ghost predicate NewerLine(line: string) {
    exists token, target, version ::
      ThreeParts(line, token, target, version) && KnownToken(line) && GoodTarget(target) && !Supported(version)
  }

  ghost predicate AllColons(lines: seq<string>) {
    forall i :: 0 <= i < |lines| ==> ':' in lines[i]
  }

  ghost predicate HeadersSay(lines: seq<string>, headers: FieldMap) {
    && (forall i :: 0 <= i < |lines| ==> FieldOf(HeaderSyntax, lines[i]).Some?)
    && FirstWins(FieldsOf(lines, HeaderSyntax), headers)
  }

  /** The length a request announces, as `stoull` reads it; GET and DELETE announce none. */
  function Announced(verb: Method, headers: FieldMap): Option<Number> {
    if verb in {POST, PUT} && CONTENT_LENGTH in headers then Some(Stoull(headers[CONTENT_LENGTH].value)) else None
  }

  predicate BodySays(req: Request, tail: string) {
    match Announced(req.verb, req.headers)
    case None => req.body == ""
    case Some(Number(n)) => n <= |tail| && req.body == tail[..n]
    case Some(_) => false
  }

  /** The message is this request, whatever follows it. */
  ghost predicate Reads(m: string, req: Request) {
    exists line, lines, tail ::
      && Dissects(m, line, lines, tail)
      && LineSays(line, req) && HeadersSay(lines, req.headers) && BodySays(req, tail)
  }

  // ---- the start line ----------------------------------------------------------------

  lemma SupportedTexts(version: string)
    ensures Supported(version) <==> version in {"HTTP/1.1", "HTTP/1.0"}
  {
    assert version == "HTTP/1.1" ==> version == VersionText(HTTP11);
    assert version == "HTTP/1.0" ==> version == VersionText(HTTP10);
  }

  lemma StartLineDecides(line: string)
    ensures var o := StartLine(FRESH, line);
            && (o.Ok? <==> GoodLine(line))
            && (o.Ok? ==> LineSays(line, BuildRequest(o.st))
                          && o.st == FRESH.(verb := o.st.verb, version := o.st.version,
                                            path := o.st.path, query := o.st.query))
            && (o.Throw? ==>
                  o.exn == Parsing(if NewerLine(line) then HTTP_VERSION_NOT_SUPPORTED else BAD_REQUEST))
  {
    hide StartLine, GoodTarget, KnownToken, Divides, ThreeParts, Supported;
    StartLineTooShort(FRESH, line);
    forall token, target, version | ThreeParts(line, token, target, version)
      ensures Supported(version) <==> version in {"HTTP/1.1", "HTTP/1.0"}
      ensures StartLine(FRESH, line).Ok? <==> KnownToken(line) && GoodTarget(target) && Supported(version)
      ensures StartLine(FRESH, line).Ok? ==> LineSays(line, BuildRequest(StartLine(FRESH, line).st))
      ensures StartLine(FRESH, line).Throw? ==>
                StartLine(FRESH, line).exn == Parsing(if KnownToken(line) && GoodTarget(target)
                                                      then HTTP_VERSION_NOT_SUPPORTED else BAD_REQUEST)
      ensures StartLine(FRESH, line).Ok? ==>
                var st := StartLine(FRESH, line).st;
                st == FRESH.(verb := st.verb, version := st.version, path := st.path, query := st.query)
    {
      SupportedTexts(version);
      StartLineVerdict(FRESH, line, token, target, version);
    }
  }

  /** A start line says one thing only. */
  lemma LineSaysOne(line: string, r1: Request, r2: Request)
    requires LineSays(line, r1) && LineSays(line, r2)
    ensures r1.verb == r2.verb && r1.version == r2.version && r1.path == r2.path && r1.query == r2.query
  {
    hide Divides;
    var k1, t1, v1 :| ThreeParts(line, k1, t1, v1) && MethodText(r1.verb) <= line
                      && v1 == VersionText(r1.version) && Divides(t1, r1.path, r1.query);
    var k2, t2, v2 :| ThreeParts(line, k2, t2, v2) && MethodText(r2.verb) <= line
                      && v2 == VersionText(r2.version) && Divides(t2, r2.path, r2.query);
    PartsUnique(line, k1, t1, v1, k2, t2, v2);
    MethodUnique(line, r1.verb, r2.verb);
    DividesOne(t1, r1.path, r1.query, r2.path, r2.query);
    assert VersionText(HTTP10)[7] != VersionText(HTTP11)[7];
  }

  lemma SplitUnique(a: string, b: string, c: string, d: string, x: char)
    requires a + [x] + b == c + [x] + d && x !in a && x !in c
    ensures a == c && b == d
  {
    FindAfter(a, [x], b);
    FindAfter(c, [x], d);
    var s := a + [x] + b;
    assert s[..|a|] == a && s[..|c|] == c && s[|a| + 1..] == b && s[|c| + 1..] == d;
  }

  lemma PartsUnique(line: string, k1: string, t1: string, v1: string, k2: string, t2: string, v2: string)
    requires ThreeParts(line, k1, t1, v1) && ThreeParts(line, k2, t2, v2)
    ensures k1 == k2 && t1 == t2 && v1 == v2
  {
    var b1, b2 := t1 + " " + v1, t2 + " " + v2;
    assert line == k1 + " " + b1 && line == k2 + " " + b2;
    SplitUnique(k1, b1, k2, b2, ' ');
    SplitUnique(t1, v1, t2, v2, ' ');
  }

  lemma MethodUnique(line: string, m1: Method, m2: Method)
    requires MethodText(m1) <= line && MethodText(m2) <= line
    ensures m1 == m2
  {
    assert line[0] == MethodText(m1)[0] == MethodText(m2)[0];
    assert line[1] == MethodText(m1)[1] == MethodText(m2)[1];
  }

  /** What follows the path in a target. */
  ghost predicate QuerySays(rest: string, query: FieldMap) {
    || ((rest == "" || rest == "?") && query == map[])
    || (exists q :: rest == "?" + q && q != "" && AllParse(Pieces(q))
                    && FirstWins(FieldsOf(Pieces(q), QuerySyntax), query))
  }

  lemma DividesParts(target: string, path: string, query: FieldMap) returns (rest: string)
    requires Divides(target, path, query)
    ensures target == path + rest && QuerySays(rest, query) && '?' !in path && (rest != "" ==> rest[0] == '?')
  {
    hide Pieces, FirstWins, AllParse;
    if target == path && query == map[] {
      rest := "";
    } else if target == path + "?" && query == map[] {
      rest := "?";
    } else {
      var q :| target == path + "?" + q && q != "" && AllParse(Pieces(q))
               && FirstWins(FieldsOf(Pieces(q), QuerySyntax), query);
      rest := "?" + q;
    }
  }

  lemma DividesOne(target: string, p1: string, q1: FieldMap, p2: string, q2: FieldMap)
    requires Divides(target, p1, q1) && Divides(target, p2, q2)
    ensures p1 == p2 && q1 == q2
  {
    hide Divides, QuerySays;
    var r1 := DividesParts(target, p1, q1);
    var r2 := DividesParts(target, p2, q2);
    PathUnique(p1, r1, p2, r2);
    QuerySaysOne(r1, q1, q2);
  }

  lemma PathUnique(p1: string, r1: string, p2: string, r2: string)
    requires p1 + r1 == p2 + r2 && '?' !in p1 && '?' !in p2
    requires (r1 != "" ==> r1[0] == '?') && (r2 != "" ==> r2[0] == '?')
    ensures p1 == p2 && r1 == r2
  {
    var s := p1 + r1;
    PathEnd(p1, r1);
    PathEnd(p2, r2);
    assert s[..|p1|] == p1 && s[..|p2|] == p2 && s[|p1|..] == r1 && s[|p2|..] == r2;
  }

  lemma PathEnd(path: string, rest: string)
    requires '?' !in path && (rest != "" ==> rest[0] == '?')
    ensures Find(path + rest, "?") == if rest == "" then None else Some(|path|)
  {
    if rest == "" {
      assert path + rest == path;
      FindNothing(path, "?");
    } else {
      assert path + rest == path + "?" + rest[1..];
      FindAfter(path, "?", rest[1..]);
    }
  }

  lemma QuerySaysOne(rest: string, q1: FieldMap, q2: FieldMap)
    requires QuerySays(rest, q1) && QuerySays(rest, q2)
    ensures q1 == q2
  {
    hide Pieces, FirstWins, AllParse;
    if |rest| > 1 {
      var a :| rest == "?" + a && a != "" && AllParse(Pieces(a))
               && FirstWins(FieldsOf(Pieces(a), QuerySyntax), q1);
      var b :| rest == "?" + b && b != "" && AllParse(Pieces(b))
               && FirstWins(FieldsOf(Pieces(b), QuerySyntax), q2);
      assert a == rest[1..] == b;
      FirstWinsUnique(FieldsOf(Pieces(a), QuerySyntax), q1, q2);
    }
  }

  // ---- the parser on a dissected message ------------------------------------------------

  /** The header phase on a dissected message. */
  lemma HeadDecides(st: State, lines: seq<string>)
    requires Terminated(Unlines(lines)) && Lines(Unlines(lines)) == lines && st.headers == map[]
    ensures var o := HeaderBlock(st, Unlines(lines));
            && (o.Ok? <==> AllColons(lines))
            && (o.Throw? ==> o.exn == Parsing(BAD_REQUEST))
            && (o.Ok? ==> HeadersSay(lines, o.st.headers) && o.st == st.(headers := o.st.headers))
  {
    hide Lines, Unlines, FirstWins;
    HeaderVerdict(st, Unlines(lines));
  }

  /** What the parser makes of a complete head, in the order in which it looks. */
  lemma DissectedOutcome(m: string, line: string, lines: seq<string>, tail: string)
    requires Dissects(m, line, lines, tail)
    ensures var o := OneShot(m);
            var req := BuildRequest(o.st);
            if !GoodLine(line) then
              o.Throw? && o.exn == Parsing(if NewerLine(line) then HTTP_VERSION_NOT_SUPPORTED else BAD_REQUEST)
            else if !AllColons(lines) then o.Throw? && o.exn == Parsing(BAD_REQUEST)
            else
              && LineSays(line, req) && HeadersSay(lines, req.headers)
              && match Announced(req.verb, req.headers)
                 case None => o.Ok? && o.st.phase == Done && req.body == ""
                 case Some(NotANumber) => o.Throw? && o.exn == InvalidArgument
                 case Some(TooLarge) => o.Throw? && o.exn == OutOfRange
                 case Some(Number(n)) =>
                   o.Ok? && (if n <= |tail| then o.st.phase == Done && req.body == tail[..n]
                             else o.st.phase == Body)
  {
    hide Find, Dissects, StartLine, HeaderBlock, Stoull, HeadersSay, LineSays, GoodLine, NewerLine, Unlines, Lines,
         AllColons;
    DissectedPhases(m, line, lines, tail);
    StartLineDecides(line);
    var l := StartLine(FRESH, line);
    if l.Ok? {
      var st := l.st.(phase := Headers, parsedTotal := |line| + 2);
      assert LinePhase(FRESH, m) == Ok(st);
      HeadDecides(st, lines);
      var h := HeaderBlock(st, Unlines(lines));
      if h.Ok? {
        SameLine(line, BuildRequest(l.st), BuildRequest(BodyPlan(h.st, |Unlines(lines)| + 2).st));
      }
    }
  }

  lemma SameLine(line: string, r: Request, r': Request)
    requires LineSays(line, r)
    requires r'.verb == r.verb && r'.version == r.version && r'.path == r.path && r'.query == r.query
    ensures LineSays(line, r') && LineSays(line, r'.(body := ""))
    ensures forall b: string :: LineSays(line, r'.(body := b))
  {
    hide Divides, ThreeParts;
  }

  /** A parser that has not seen a whole head either rejects the start line or waits. */
  lemma IncompleteOutcome(m: string)
    requires var e := Find(m, CRLF);
             e.None? || (e.value + 2 <= |m| && Find(m[e.value + 2..], HEAD_END).None?)
    ensures var o := OneShot(m);
            match Find(m, CRLF)
            case None => o.Ok? && o.st.phase != Done
            case Some(k) =>
              if GoodLine(m[..k]) then o.Ok? && o.st.phase != Done
              else o.Throw? && o.exn == Parsing(if NewerLine(m[..k]) then HTTP_VERSION_NOT_SUPPORTED else BAD_REQUEST)
  {
    hide Find, StartLine, GoodLine, NewerLine, LineSays;
    match Find(m, CRLF)
    case None =>
    case Some(k) =>
      FindBound(m, CRLF);
      StartLineDecides(m[..k]);
  }

  // ---- the language ---------------------------------------------------------------------

  /** The parser accepts exactly the messages that read as a request, and makes exactly that
      request of them. */
  lemma AcceptedExactly(m: string, req: Request)
    ensures OneShot(m).Ok? && OneShot(m).st.phase == Done && BuildRequest(OneShot(m).st) == req
            <==> Reads(m, req)
  {
    hide Find, OneShot, Dissects, LineSays, HeadersSay, GoodLine, NewerLine, AllColons, Stoull;
    var o := OneShot(m);
    if o.Ok? && o.st.phase == Done && BuildRequest(o.st) == req {
      DoneIsComplete(m);
      var line, lines, tail := CompleteHead(m);
      DissectedOutcome(m, line, lines, tail);
    }
    if Reads(m, req) {
      var line, lines, tail :| Dissects(m, line, lines, tail) && LineSays(line, req)
                               && HeadersSay(lines, req.headers) && BodySays(req, tail);
      SaysIsGood(line, req);
      SaysHasColons(lines, req.headers);
      DissectedOutcome(m, line, lines, tail);
      LineSaysOne(line, req, BuildRequest(o.st));
      HeadersSayOne(lines, req.headers, o.st.headers);
    }
  }

  lemma DoneIsComplete(m: string)
    requires OneShot(m).Ok? && OneShot(m).st.phase == Done
    ensures var e := Find(m, CRLF);
            e.Some? && e.value + 2 <= |m| && Find(m[e.value + 2..], HEAD_END).Some?
  {
    hide Find, OneShot, GoodLine, NewerLine;
    if Find(m, CRLF).Some? {
      FindBound(m, CRLF);
    }
    if Find(m, CRLF).None? || Find(m[Find(m, CRLF).value + 2..], HEAD_END).None? {
      IncompleteOutcome(m);
    }
  }

  lemma SaysIsGood(line: string, req: Request)
    requires LineSays(line, req)
    ensures GoodLine(line)
  {
    hide Divides, GoodTarget;
    var token, target, version :| ThreeParts(line, token, target, version) && MethodText(req.verb) <= line
                                  && version == VersionText(req.version) && req.path != ""
                                  && Divides(target, req.path, req.query);
    DividesIsGood(target, req.path, req.query);
  }

  lemma DividesIsGood(target: string, path: string, query: FieldMap)
    requires Divides(target, path, query) && path != ""
    ensures GoodTarget(target)
  {
    hide Find, Divides, Pieces, FirstWins;
    var rest := DividesParts(target, path, query);
    PathEnd(path, rest);
    if |rest| > 1 {
      var q :| rest == "?" + q && q != "" && AllParse(Pieces(q))
               && FirstWins(FieldsOf(Pieces(q), QuerySyntax), query);
      assert target[|path| + 1..] == q;
      forall i | 0 <= i < |Pieces(q)| ensures '=' in Pieces(q)[i] {
        PieceFieldNone(Pieces(q)[i]);
      }
    }
  }

  lemma SaysHasColons(lines: seq<string>, headers: FieldMap)
    requires HeadersSay(lines, headers)
    ensures AllColons(lines)
  {
    hide FirstWins;
    forall i | 0 <= i < |lines| ensures ':' in lines[i] {
      LineFieldNone(lines[i]);
    }
  }

  lemma HeadersSayOne(lines: seq<string>, h1: FieldMap, h2: FieldMap)
    requires HeadersSay(lines, h1) && HeadersSay(lines, h2)
    ensures h1 == h2
  {
    hide FirstWins;
    FirstWinsUnique(FieldsOf(lines, HeaderSyntax), h1, h2);
  }

  /** The start line of a message, as soon as it is complete. */
  ghost predicate FirstLine(m: string, line: string) {
    exists rest :: m == line + CRLF + rest && Unbroken(line)
  }

  /** The length announced by a head reads as `num`. */
  ghost predicate LengthReads(line: string, lines: seq<string>, num: Number) {
    exists req :: LineSays(line, req) && HeadersSay(lines, req.headers)
                  && Announced(req.verb, req.headers) == Some(num)
  }

  /** What is wrong with a message. Only 505 and 400 are answered; the other two come from
      reading the announced length and end the connection. */
  ghost predicate Faulty(m: string, exn: Exn) {
    || (exn == Parsing(HTTP_VERSION_NOT_SUPPORTED) && exists line :: FirstLine(m, line) && NewerLine(line))
    || (exn == Parsing(BAD_REQUEST)
        && (|| (exists line :: FirstLine(m, line) && !GoodLine(line) && !NewerLine(line))
            || (exists line, lines, tail :: Dissects(m, line, lines, tail) && GoodLine(line) && !AllColons(lines))))
    || (exn in {InvalidArgument, OutOfRange}
        && exists line, lines, tail ::
             && Dissects(m, line, lines, tail) && GoodLine(line) && AllColons(lines)
             && LengthReads(line, lines, if exn == OutOfRange then TooLarge else NotANumber))
  }

  lemma NewerIsNotGood(line: string)
    requires NewerLine(line)
    ensures !GoodLine(line)
  {
    hide GoodTarget, KnownToken, Supported, ThreeParts;
    var k1, t1, v1 :| ThreeParts(line, k1, t1, v1) && !Supported(v1);
    forall k2, t2, v2 | ThreeParts(line, k2, t2, v2) ensures !Supported(v2) {
      PartsUnique(line, k1, t1, v1, k2, t2, v2);
    }
  }

  lemma FirstLineIs(m: string, line: string)
    ensures FirstLine(m, line) <==>
            Find(m, CRLF).Some? && Find(m, CRLF).value <= |m| && line == m[..Find(m, CRLF).value]
  {
    hide Find;
    if rest :| m == line + CRLF + rest && Unbroken(line) {
      LineEndFound(line, rest);
      assert m[..|line|] == line;
    }
    if Find(m, CRLF).Some? {
      var k := Find(m, CRLF).value;
      FindBound(m, CRLF);
      LineSplit(m, k);
      BeforeMatch(m, CRLF);
    }
  }

  lemma NotDissected(m: string, line: string, lines: seq<string>, tail: string)
    requires var e := Find(m, CRLF);
             e.None? || (e.value + 2 <= |m| && Find(m[e.value + 2..], HEAD_END).None?)
    ensures !Dissects(m, line, lines, tail)
  {
    hide Find, Dissects;
    if Dissects(m, line, lines, tail) {
      DissectedPhases(m, line, lines, tail);
    }
  }

  /** Only the start line of an incomplete head can be faulty. */
  lemma IncompleteFault(m: string, exn: Exn)
    requires var e := Find(m, CRLF);
             e.None? || (e.value + 2 <= |m| && Find(m[e.value + 2..], HEAD_END).None?)
    ensures Faulty(m, exn) <==>
            && Find(m, CRLF).Some?
            && var line := m[..Find(m, CRLF).value];
               && !GoodLine(line)
               && exn == Parsing(if NewerLine(line) then HTTP_VERSION_NOT_SUPPORTED else BAD_REQUEST)
  {
    hide Find, Dissects, FirstLine, GoodLine, NewerLine, AllColons, LengthReads;
    forall line ensures FirstLine(m, line) <==>
                        Find(m, CRLF).Some? && Find(m, CRLF).value <= |m| && line == m[..Find(m, CRLF).value]
    {
      FirstLineIs(m, line);
    }
    forall line, lines, tail ensures !Dissects(m, line, lines, tail) {
      NotDissected(m, line, lines, tail);
    }
    if Find(m, CRLF).Some? && NewerLine(m[..Find(m, CRLF).value]) {
      NewerIsNotGood(m[..Find(m, CRLF).value]);
    }
  }

  lemma DissectedFault(m: string, line: string, lines: seq<string>, tail: string, exn: Exn)
    requires Dissects(m, line, lines, tail)
    ensures Faulty(m, exn) <==>
            if !GoodLine(line) then
              exn == Parsing(if NewerLine(line) then HTTP_VERSION_NOT_SUPPORTED else BAD_REQUEST)
            else if !AllColons(lines) then exn == Parsing(BAD_REQUEST)
            else exn in {InvalidArgument, OutOfRange}
                 && LengthReads(line, lines, if exn == OutOfRange then TooLarge else NotANumber)
  {
    hide Find, Dissects, FirstLine, GoodLine, NewerLine, AllColons, LengthReads;
    DissectedPhases(m, line, lines, tail);
    forall other ensures FirstLine(m, other) <==> other == line {
      FirstLineIs(m, other);
    }
    forall a, b, c | Dissects(m, a, b, c) ensures a == line && b == lines && c == tail {
      DissectionUnique(m, line, lines, tail, a, b, c);
    }
    if NewerLine(line) {
      NewerIsNotGood(line);
    }
  }

  lemma LengthReadsAs(line: string, lines: seq<string>, req: Request, num: Number)
    requires LineSays(line, req) && HeadersSay(lines, req.headers)
    ensures LengthReads(line, lines, num) <==> Announced(req.verb, req.headers) == Some(num)
  {
    hide LineSays, HeadersSay, Announced;
    if other :| LineSays(line, other) && HeadersSay(lines, other.headers)
                && Announced(other.verb, other.headers) == Some(num) {
      LineSaysOne(line, req, other);
      HeadersSayOne(lines, req.headers, other.headers);
    }
  }

  /** The parser throws exactly on the faulty messages, and what their fault demands. */
  lemma ThrownExactly(m: string, exn: Exn)
    ensures OneShot(m).Throw? && OneShot(m).exn == exn <==> Faulty(m, exn)
  {
    hide Find, OneShot, Dissects, LineSays, HeadersSay, GoodLine, NewerLine, AllColons, Announced, Faulty, LengthReads;
    if Find(m, CRLF).Some? {
      FindBound(m, CRLF);
    }
    if Find(m, CRLF).None? || Find(m[Find(m, CRLF).value + 2..], HEAD_END).None? {
      IncompleteOutcome(m);
      IncompleteFault(m, exn);
    } else {
      var line, lines, tail := CompleteHead(m);
      DissectedOutcome(m, line, lines, tail);
      DissectedFault(m, line, lines, tail, exn);
      if GoodLine(line) && AllColons(lines) {
        LengthReadsAs(line, lines, BuildRequest(OneShot(m).st), if exn == OutOfRange then TooLarge else NotANumber);
      }
    }
  }

  /** The parser waits exactly for the messages that are neither a request nor faulty. */
  lemma WaitsExactly(m: string)
    ensures Pending(OneShot(m)) <==> (forall req :: !Reads(m, req)) && (forall exn :: !Faulty(m, exn))
  {
    hide OneShot, Reads, Faulty;
    forall req ensures Reads(m, req) <==>
                       OneShot(m).Ok? && OneShot(m).st.phase == Done && BuildRequest(OneShot(m).st) == req
    {
      AcceptedExactly(m, req);
    }
    forall exn ensures Faulty(m, exn) <==> OneShot(m).Throw? && OneShot(m).exn == exn {
      ThrownExactly(m, exn);
    }
    var o := OneShot(m);
    assert o.Ok? && o.st.phase == Done ==> Reads(m, BuildRequest(o.st));
    assert o.Throw? ==> Faulty(m, o.exn);
  }

  /** The announced length is that of the earliest Content-Length line, in any spelling. */
  lemma AnnouncedByFields(verb: Method, lines: seq<string>, headers: FieldMap)
    requires HeadersSay(lines, headers)
    ensures var f := FirstNamed(FieldsOf(lines, HeaderSyntax), "Content-Length");
            Announced(verb, headers)
            == if (verb == POST || verb == PUT) && f.Some? then Some(Stoull(f.value.value)) else None
  {
    hide Stoull;
    var fields := FieldsOf(lines, HeaderSyntax);
    InsertAllFirstWins(map[], fields);
    FirstWinsUnique(fields, headers, InsertAll(map[], fields));
    FoundUnderAnySpelling(map[], fields, "Content-Length");
    FoldContentLength();
  }

  /** What is written for a request when the callback has had its say. */
  ghost predicate AnswersRequest(svc: Service, req: Request, text: string) {
    match svc.callback(req)
    case Respond(r) => text == DumpText(Response(req.version, r.code, r.headers + Announcement(req), r.body))
    case Raise(Parsing(code)) => text == DumpText(Response(HTTP10, code, [], ""))
    case Raise(_) => false
  }

  /** On every run, what is written for each answered stretch of the input is the callback's
      response to the request that the stretch reads as, or a bare error response with the
      code that the callback raised or the stretch's fault demands. */
  lemma RunAnswersLanguage(svc: Service, ios: seq<Io>, i: nat)
    requires svc.slack == 0 && i < |Run(svc, CREATED, ios).segments|
    ensures var seg := Run(svc, CREATED, ios).segments[i];
            var text := AnswerText(svc, seg);
            || (exists req :: Reads(seg, req) && AnswersRequest(svc, req, text))
            || (Faulty(seg, Parsing(400)) && text == "HTTP/1.0" + " " + "400" + " " + "Bad Request" + CRLF + CRLF)
            || (Faulty(seg, Parsing(505)) && text
                == "HTTP/1.0" + " " + "505" + " " + "HTTP Version Not Supported" + CRLF + CRLF)
  {
    hide Run, OneShot, Reads, Faulty, Concat, OutputOf, DumpText, AnswersRequest;
    RunKeepsStream(svc, ios);
    var c := Run(svc, CREATED, ios);
    var seg := c.segments[i];
    var o := OneShot(seg);
    assert AnswerOf(svc, seg).Answer?;
    if o.Ok? {
      var req := BuildRequest(o.st);
      AcceptedExactly(seg, req);
      RequestAnswered(svc, seg, req);
    } else {
      ThrownExactly(seg, o.exn);
      assert o.exn == Parsing(400) || o.exn == Parsing(505) by { FaultCodes(seg, o.exn); }
      ErrorTexts();
    }
  }

  lemma FaultCodes(m: string, exn: Exn)
    requires Faulty(m, exn) && exn.Parsing?
    ensures exn == Parsing(400) || exn == Parsing(505)
  {
    hide FirstLine, Dissects, GoodLine, NewerLine, AllColons;
  }

  lemma RequestAnswered(svc: Service, seg: string, req: Request)
    requires OneShot(seg).Ok? && !Pending(OneShot(seg)) && req == BuildRequest(OneShot(seg).st)
    requires AnswerOf(svc, seg).Answer?
    ensures AnswersRequest(svc, req, AnswerText(svc, seg))
  {
    hide OneShot, DumpText;
    AnswerOfResponse(svc, seg);
    match svc.callback(req)
    case Respond(r) => assert AnsweredWith(svc, seg, req, r);
    case Raise(_) =>
  }
}
