/** What the printer writes, the parser reads back. */
module RoundTrip {
  import opened Text
  import opened Protocol
  import opened ParserSpec

  predicate Without(s: string, banned: set<char>) {
    forall i :: 0 <= i < |s| ==> s[i] !in banned
  }

  // ---- query ------------------------------------------------------------

  function JoinPieces(pieces: seq<string>): string
    requires pieces != []
  {
    if |pieces| == 1 then pieces[0] else pieces[0] + "&" + JoinPieces(pieces[1..])
  }

  /** The query loop visits exactly the `&`-separated pieces of its input. */
  lemma {:induction false} PiecesRejoin(s: string)
    ensures JoinPieces(Pieces(s)) == s
    ensures forall i :: 0 <= i < |Pieces(s)| ==> '&' !in Pieces(s)[i]
    decreases |s|
  {
    match Find(s, "&")
    case None =>
      forall j | 0 <= j < |s| ensures s[j] != '&' {
        assert !MatchAt(s, "&", j);
        assert s[j..j + 1] == [s[j]];
      }
    case Some(k) =>
      assert MatchAt(s, "&", k);
      PiecesRejoin(s[k + 1..]);
      assert Pieces(s)[1..] == Pieces(s[k + 1..]);
      assert s == s[..k] + s[k..k + 1] + s[k + 1..];
      forall j | 0 <= j < k ensures s[j] != '&' {
        assert !MatchAt(s, "&", j);
        assert s[j..j + 1] == [s[j]];
      }
  }

  lemma PieceFieldNone(p: string)
    ensures PieceField(p).None? <==> '=' !in p
  {
    match Find(p, "=")
    case None =>
      forall j | 0 <= j < |p| ensures p[j] != '=' {
        assert !MatchAt(p, "=", j);
        assert p[j..j + 1] == [p[j]];
      }
    case Some(k) =>
      assert p[k..k + 1] == "=";
      assert p[k] == '=';
  }

  ghost predicate AllNamed(pieces: seq<string>) {
    forall i :: 0 <= i < |pieces| ==> '=' in pieces[i]
  }

  lemma AddFieldsNamed(m: FieldMap, pieces: seq<string>)
    ensures AddFields(m, pieces, QuerySyntax).ok <==> AllNamed(pieces)
  {
    forall i | 0 <= i < |pieces|
      ensures FieldOf(QuerySyntax, pieces[i]).Some? <==> '=' in pieces[i]
    {
      PieceFieldNone(pieces[i]);
    }
  }

  /** The query loop throws exactly when some piece has no `=`, and then 400. */
  lemma QueryThrows(st: State, text: string)
    ensures Query(st, text).Throw? <==> !AllNamed(Pieces(text))
    ensures Query(st, text).Throw? ==> Query(st, text).exn == Parsing(BAD_REQUEST)
  {
    AddFieldsNamed(st.query, Pieces(text));
  }

  function PairText(f: Field): string { f.name + "=" + f.value }

  function JoinPairs(pairs: seq<Field>): string
    requires pairs != []
  {
    if |pairs| == 1 then PairText(pairs[0]) else PairText(pairs[0]) + "&" + JoinPairs(pairs[1..])
  }

  predicate QueryPair(f: Field) {
    Without(f.name, {'=', '&'}) && Without(f.value, {'&'})
  }

  lemma PairRoundTrip(f: Field)
    requires QueryPair(f)
    ensures PieceField(PairText(f)) == Some(f)
    ensures '&' !in PairText(f)
  {
    FindAfter(f.name, "=", f.value);
    assert PairText(f)[..|f.name|] == f.name && PairText(f)[|f.name| + 1..] == f.value;
  }

  /** Joining pairs and running the query loop inserts them in order. */
  lemma {:induction false} QueryRoundTrip(m: FieldMap, pairs: seq<Field>)
    requires pairs != [] && forall i :: 0 <= i < |pairs| ==> QueryPair(pairs[i])
    ensures AddFields(m, Pieces(JoinPairs(pairs)), QuerySyntax) == Added(InsertAll(m, pairs), true)
    decreases |pairs|
  {
    var f, text := pairs[0], JoinPairs(pairs);
    PairRoundTrip(f);
    if |pairs| == 1 {
      FindNothing(text, "&");
      assert InsertAll(Insert(m, f), pairs[1..]) == Insert(m, f);
      assert Pieces(text)[1..] == [];
    } else {
      var rest := JoinPairs(pairs[1..]);
      FindAfter(PairText(f), "&", rest);
      assert text[..|PairText(f)|] == PairText(f);
      assert text[|PairText(f)| + 1..] == rest;
      QueryRoundTrip(Insert(m, f), pairs[1..]);
      assert Pieces(text)[1..] == Pieces(rest);
    }
  }

  /** The query map read back is the first-wins map of the list. */
  lemma QueryMapIsFirstWins(st: State, pairs: seq<Field>)
    requires st.query == map[]
    requires pairs != [] && forall i :: 0 <= i < |pairs| ==> QueryPair(pairs[i])
    ensures Query(st, JoinPairs(pairs)).Ok?
    ensures FirstWins(pairs, Query(st, JoinPairs(pairs)).st.query)
  {
    QueryRoundTrip(map[], pairs);
    InsertAllFirstWins(map[], pairs);
  }

  // ---- start line -------------------------------------------------------

  predicate PathToken(path: string) {
    path != "" && Without(path, {' ', '?', '\r'})
  }

  predicate TargetPair(f: Field) {
    QueryPair(f) && Without(f.name, {' ', '\r'}) && Without(f.value, {' ', '\r'})
  }

  predicate TargetPairs(pairs: seq<Field>) {
    forall i :: 0 <= i < |pairs| ==> TargetPair(pairs[i])
  }

  function TargetText(path: string, pairs: seq<Field>): string {
    if pairs == [] then path else path + "?" + JoinPairs(pairs)
  }

  function StartLineText(verb: Method, path: string, pairs: seq<Field>, version: Version): string {
    MethodText(verb) + " " + TargetText(path, pairs) + " " + VersionText(version)
  }

  lemma {:induction false} JoinPairsWithout(pairs: seq<Field>)
    requires pairs != [] && TargetPairs(pairs)
    ensures Without(JoinPairs(pairs), {' ', '\r'})
    decreases |pairs|
  {
    assert TargetPair(pairs[0]);
    if |pairs| > 1 {
      JoinPairsWithout(pairs[1..]);
    }
  }

  lemma UrlRoundTrip(st: State, path: string, pairs: seq<Field>)
    requires PathToken(path) && TargetPairs(pairs) && st.query == map[]
    ensures Url(st, TargetText(path, pairs)) == Ok(st.(path := path, query := InsertAll(map[], pairs)))
    ensures Without(TargetText(path, pairs), {' ', '\r'})
  {
    var url := TargetText(path, pairs);
    if pairs == [] {
      FindNothing(path, "?");
    } else {
      var q := JoinPairs(pairs);
      FindAfter(path, "?", q);
      assert |q| > 0;
      assert url[|path| + 1..] == q && url[..|path|] == path;
      QueryRoundTrip(map[], pairs);
      JoinPairsWithout(pairs);
    }
  }

  lemma TargetRoundTrip(st: State, path: string, pairs: seq<Field>, version: Version)
    requires PathToken(path) && TargetPairs(pairs) && st.query == map[]
    ensures Target(st, TargetText(path, pairs) + " " + VersionText(version))
            == Ok(st.(path := path, version := version, query := InsertAll(map[], pairs)))
  {
    hide Url, InsertAll, TargetText;
    var target := TargetText(path, pairs);
    var text := target + " " + VersionText(version);
    UrlRoundTrip(st, path, pairs);
    FindAfter(target, " ", VersionText(version));
    assert text[..|target|] == target && text[|target| + 1..] == VersionText(version);
  }

  lemma StartLineRoundTrip(verb: Method, path: string, pairs: seq<Field>, version: Version)
    requires PathToken(path) && TargetPairs(pairs)
    ensures StartLine(FRESH, StartLineText(verb, path, pairs, version))
            == Ok(FRESH.(verb := verb, path := path, version := version, query := InsertAll(map[], pairs)))
  {
    hide Target, InsertAll, TargetText, MethodOf, MethodText, VersionText, PathToken, TargetPairs, MatchAt, Find;
    var rest := TargetText(path, pairs) + " " + VersionText(version);
    var line := StartLineText(verb, path, pairs, version);
    assert line == MethodText(verb) + " " + rest;
    MethodUnbroken(verb);
    FindAfter(MethodText(verb), " ", rest);
    assert line[|MethodText(verb)| + 1..] == rest;
    MethodRoundTrip(verb, rest);
    TargetRoundTrip(FRESH.(verb := verb), path, pairs, version);
  }

  lemma StartLineUnbroken(verb: Method, path: string, pairs: seq<Field>, version: Version)
    requires PathToken(path) && TargetPairs(pairs)
    ensures '\r' !in StartLineText(verb, path, pairs, version)
  {
    hide Url, InsertAll, TargetText, PathToken, TargetPairs;
    UrlRoundTrip(FRESH, path, pairs);
    assert '\r' !in TargetText(path, pairs);
    assert '\r' !in MethodText(verb) && '\r' !in VersionText(version);
  }

  lemma MethodUnbroken(verb: Method)
    ensures ' ' !in MethodText(verb)
  {
  }

  lemma MethodRoundTrip(verb: Method, rest: string)
    ensures MethodOf(MethodText(verb) + " " + rest) == Some(verb)
  {
    var line := MethodText(verb) + " " + rest;
    assert MethodText(verb) <= line;
    assert line[0] == MethodText(verb)[0] && line[1] == MethodText(verb)[1];
    assert "GET" <= line ==> line[..3][0] == 'G';
    assert "POST" <= line ==> line[..4][0] == 'P' && line[..4][1] == 'O';
    assert "DELETE" <= line ==> line[..6][0] == 'D';
  }

  // ---- header block -----------------------------------------------------

  function Unlines(lines: seq<string>): string {
    if lines == [] then "" else lines[0] + CRLF + Unlines(lines[1..])
  }

  /** The header loop visits lines that, with their ends restored, are its input. */
  lemma {:induction false} LinesRejoin(block: string)
    requires Terminated(block)
    ensures Unlines(Lines(block)) == block
    decreases |block|
  {
    if block != "" {
      TerminatedStep(block);
      var k := Find(block, CRLF).value;
      var rest := block[k + 2..];
      LinesRejoin(rest);
      assert MatchAt(block, CRLF, k);
      LineSplit(block, k);
      assert Lines(block) == [block[..k]] + Lines(rest);
      UnlinesCons(block[..k], Lines(rest));
    }
  }

  lemma LineSplit(block: string, k: nat)
    requires MatchAt(block, CRLF, k)
    ensures block == block[..k] + CRLF + block[k + 2..]
  {
  }

  lemma UnlinesCons(line: string, lines: seq<string>)
    ensures Unlines([line] + lines) == line + CRLF + Unlines(lines)
  {
    assert ([line] + lines)[1..] == lines;
  }

  /** No visited line contains a line end. */
  lemma {:induction false} LinesUnbroken(block: string)
    requires Terminated(block)
    ensures forall i :: 0 <= i < |Lines(block)| ==> Find(Lines(block)[i], CRLF).None?
    decreases |block|
  {
    if block != "" {
      TerminatedStep(block);
      BeforeMatch(block, CRLF);
      LinesUnbroken(block[Find(block, CRLF).value + 2..]);
    }
  }

  lemma BeforeMatch(s: string, p: string)
    requires Find(s, p).Some? && |p| > 0
    ensures Find(s[..Find(s, p).value], p).None?
  {
    var k := Find(s, p).value;
    forall j: nat | j < k ensures !MatchAt(s[..k], p, j) {
      assert !MatchAt(s, p, j);
      assert j + |p| <= k ==> s[..k][j..j + |p|] == s[j..j + |p|];
    }
  }

  predicate HeaderToken(f: Field) {
    && Without(f.name, {':', '\r'})
    && Without(f.value, {'\r'})
    && (f.value != "" ==> f.value[0] != ' ')
  }

  predicate HeaderTokens(fs: seq<Field>) {
    forall i :: 0 <= i < |fs| ==> HeaderToken(fs[i])
  }

  lemma HeaderLineRoundTrip(f: Field)
    requires HeaderToken(f)
    ensures LineField(f.name + ":" + f.value) == Some(f)
    ensures '\r' !in f.name + ":" + f.value
  {
    var line := f.name + ":" + f.value;
    FindAfter(f.name, ":", f.value);
    assert line[..|f.name|] == f.name && line[|f.name| + 1..] == f.value;
    if |f.name| + 1 < |line| {
      assert line[|f.name| + 1] == f.value[0];
    }
  }

  lemma {:induction false} HeaderLinesTerminated(fs: seq<Field>)
    ensures Terminated(HeaderLines(fs))
    ensures fs != [] ==> |HeaderLines(fs)| >= 3
  {
    if fs != [] {
      HeaderLinesTerminated(fs[1..]);
      var a, b := HeaderLine(fs[0]), HeaderLines(fs[1..]);
      assert a[|a| - 2..] == CRLF;
      assert HeaderLines(fs) == a + b;
      if b == "" {
        assert a + b == a;
      } else {
        assert (a + b)[|a + b| - 2..] == b[|b| - 2..];
      }
    }
  }

  /** Printing headers and running the header loop inserts them in order. */
  lemma {:induction false} HeadersRoundTrip(m: FieldMap, fs: seq<Field>)
    requires HeaderTokens(fs)
    ensures Terminated(HeaderLines(fs))
    ensures AddFields(m, Lines(HeaderLines(fs)), HeaderSyntax) == Added(InsertAll(m, fs), true)
    decreases |fs|
  {
    HeaderLinesTerminated(fs);
    if fs != [] {
      var f, rest := fs[0], HeaderLines(fs[1..]);
      var line, block := f.name + ":" + f.value, HeaderLines(fs);
      assert HeaderToken(f);
      HeaderLineRoundTrip(f);
      FindAfter(line, CRLF, rest);
      assert block == line + CRLF + rest;
      assert block[..|line|] == line && block[|line| + 2..] == rest;
      HeadersRoundTrip(Insert(m, f), fs[1..]);
      assert Lines(block) == [line] + Lines(rest);
      assert Lines(block)[1..] == Lines(rest);
    }
  }

  /** The first empty line after printed headers is the printed one, whatever follows. */
  lemma {:induction false} HeadEndFound(fs: seq<Field>, tail: string)
    requires fs != [] && HeaderTokens(fs)
    ensures Find(HeaderLines(fs) + CRLF + tail, HEAD_END) == Some(|HeaderLines(fs)| - 2)
    decreases |fs|
  {
    hide Find;
    var f := fs[0];
    assert HeaderToken(f);
    HeaderLineRoundTrip(f);
    var line := f.name + ":" + f.value;
    var a, more := HeaderLine(f), HeaderLines(fs[1..]);
    assert HeaderLines(fs) == a + more;
    if |fs| == 1 {
      assert more == "";
      assert HeaderLines(fs) + CRLF + tail == line + HEAD_END + tail;
      FindAfter(line, HEAD_END, tail);
    } else {
      assert HeaderToken(fs[1]);
      HeadEndFound(fs[1..], tail);
      HeaderLinesTerminated(fs[1..]);
      LineStart(fs[1], HeaderLines(fs[1..][1..]));
      assert HeaderLines(fs) + CRLF + tail == a + (more + CRLF + tail);
      HeadEndAfterLine(line, more + CRLF + tail);
    }
  }

  lemma HeadEndAfterLine(line: string, b: string)
    requires '\r' !in line && b != "" && b[0] != '\r' && Find(b, HEAD_END).Some?
    ensures Find(line + CRLF + b, HEAD_END) == Some(|line| + 2 + Find(b, HEAD_END).value)
  {
    NoHeadEndInLine(line, b);
    FindSkips(line + CRLF, b, HEAD_END);
  }

  lemma LineStart(f: Field, rest: string)
    requires HeaderToken(f)
    ensures |HeaderLine(f) + rest| > 0 && (HeaderLine(f) + rest)[0] != '\r'
  {
    if f.name != "" {
      assert (HeaderLine(f) + rest)[0] == f.name[0];
    } else {
      assert (HeaderLine(f) + rest)[0] == ':';
    }
  }

  lemma NoHeadEndInLine(line: string, b: string)
    requires '\r' !in line && b != "" && b[0] != '\r'
    ensures forall j :: 0 <= j < |line| + 2 ==> !MatchAt(line + CRLF + b, HEAD_END, j)
  {
    var s := line + CRLF + b;
    forall j | 0 <= j < |line| + 2 ensures !MatchAt(s, HEAD_END, j) {
      if j == |line| {
        assert s[j + 2] == b[0];
        assert j + 4 <= |s| ==> s[j..j + 4][2] == s[j + 2];
      } else {
        assert s[j] != '\r';
        NoMatchWithoutFirst(s, HEAD_END, j);
      }
    }
  }

  // ---- whole message ----------------------------------------------------

  function MessageText(verb: Method, path: string, pairs: seq<Field>, version: Version,
                       fields: seq<Field>, body: string): string
  {
    StartLineText(verb, path, pairs, version) + CRLF + HeaderLines(fields) + CRLF + body
  }

  /** The body length a field list announces is that of `body`. */
  predicate Announces(fields: seq<Field>, body: string) {
    var m := InsertAll(map[], fields);
    CONTENT_LENGTH in m && m[CONTENT_LENGTH] == ContentLength(body)
  }

  /** A body is read only for a POST or PUT that announces a length. */
  predicate Carries(verb: Method, fields: seq<Field>) {
    verb in {POST, PUT} && CONTENT_LENGTH in InsertAll(map[], fields)
  }

  /** `setBody` announces its body unless an earlier header already claims a length. */
  lemma SetBodyAnnounces(before: seq<Field>, body: string, after: seq<Field>)
    requires !Names(before, CONTENT_LENGTH)
    ensures Announces(before + [ContentLength(body)] + after, body)
  {
    var fs := before + [ContentLength(body)] + after;
    InsertAllFirstWins(map[], fs);
    var i := |before|;
    FoldContentLength();
    assert fs[i] == ContentLength(body);
    forall j | 0 <= j < i ensures Fold(fs[j].name) != Fold(fs[i].name) {
      assert fs[j] == before[j];
    }
    assert IsFirst(fs, i);
  }

  lemma FoldContentLength()
    ensures Fold("Content-Length") == CONTENT_LENGTH
  {
  }

  /** The first CRLF of a printed message ends its start line. */
  lemma LineRoundTrip(verb: Method, path: string, pairs: seq<Field>, version: Version, rest: string)
    requires PathToken(path) && TargetPairs(pairs)
    ensures var start := StartLineText(verb, path, pairs, version);
            LinePhase(FRESH, start + CRLF + rest)
            == Ok(FRESH.(verb := verb, path := path, version := version, query := InsertAll(map[], pairs),
                         phase := Headers, parsedTotal := |start| + 2))
  {
    hide StartLine, StartLineText, InsertAll, PathToken, TargetPairs, MatchAt, Find;
    var start := StartLineText(verb, path, pairs, version);
    StartLineRoundTrip(verb, path, pairs, version);
    StartLineUnbroken(verb, path, pairs, version);
    FindAfter(start, CRLF, rest);
    assert (start + CRLF + rest)[..|start|] == start;
  }

  /** Parsing a printed message recovers every part of it, for any body and surplus. A
      body that is not announced, or comes with GET or DELETE, is not part of the request. */
  lemma MessageRoundTrip(verb: Method, path: string, pairs: seq<Field>, version: Version,
                         fields: seq<Field>, body: string, surplus: string)
    requires PathToken(path) && TargetPairs(pairs)
    requires fields != [] && HeaderTokens(fields)
    requires Carries(verb, fields) ==> Announces(fields, body) && |body| <= ULLONG_MAX
    ensures var o := OneShot(MessageText(verb, path, pairs, version, fields, body) + surplus);
            o.Ok? && o.st.phase == Done
            && BuildRequest(o.st)
               == Request(InsertAll(map[], fields), InsertAll(map[], pairs),
                          if Carries(verb, fields) then body else "", path, version, verb)
  {
    hide LinePhase, StartLineText, InsertAll, HeaderLines, HeadPhase, Announces, HeaderTokens, TargetPairs,
         PathToken, Carries;
    var start := StartLineText(verb, path, pairs, version);
    var head := HeaderLines(fields);
    var tail := body + surplus;
    var rest := head + CRLF + tail;
    var m := MessageText(verb, path, pairs, version, fields, body) + surplus;
    assert m == start + CRLF + rest;
    LineRoundTrip(verb, path, pairs, version, rest);
    var st := LinePhase(FRESH, m).st;
    assert m[|start| + 2..] == rest;
    HeadRoundTrip(st, m, fields, body, tail);
    assert m[|start| + |head| + 4..] == tail;
    assert tail[..|body|] == body;
  }

  /** From the header phase, over printed headers, to the body or to the end. */
  lemma HeadRoundTrip(st: State, m: string, fields: seq<Field>, body: string, tail: string)
    requires st.phase == Headers && st.parsedTotal <= |m| && st.headers == map[]
    requires m[st.parsedTotal..] == HeaderLines(fields) + CRLF + tail
    requires fields != [] && HeaderTokens(fields)
    requires Carries(st.verb, fields) ==> Announces(fields, body) && |body| <= ULLONG_MAX
    ensures var st' := st.(headers := InsertAll(map[], fields));
            HeadPhase(st, m)
            == Ok(if Carries(st.verb, fields)
                  then st'.(phase := Body, bodyLength := |body|,
                            parsedTotal := st.parsedTotal + |HeaderLines(fields)| + 2)
                  else st'.(phase := Done))
  {
    hide AddFields, Stoull, Lines, InsertAll, HeaderLines;
    var head, rest := HeaderLines(fields), m[st.parsedTotal..];
    HeadEndFound(fields, tail);
    HeaderLinesTerminated(fields);
    assert rest[..|head|] == head;
    HeadersRoundTrip(map[], fields);
    if Carries(st.verb, fields) {
      StoullOfDecimal(|body|);
    }
  }
}
