/** Exactly which start lines, queries and header blocks are accepted, and what is made
    of the accepted ones, on every input. */
module Verdicts {
  import opened Text
  import opened Protocol
  import opened ParserSpec
  import opened RoundTrip

  // ---- lists of fields --------------------------------------------------------

  function FieldsOf(texts: seq<string>, syntax: Syntax): (fs: seq<Field>)
    requires forall i :: 0 <= i < |texts| ==> FieldOf(syntax, texts[i]).Some?
    ensures |fs| == |texts|
    ensures forall i :: 0 <= i < |fs| ==> Some(fs[i]) == FieldOf(syntax, texts[i])
  {
    seq(|texts|, i requires 0 <= i < |texts| => FieldOf(syntax, texts[i]).value)
  }

  lemma {:induction false} AddFieldsInserts(m: FieldMap, texts: seq<string>, syntax: Syntax)
    requires AddFields(m, texts, syntax).ok
    ensures AddFields(m, texts, syntax).fields == InsertAll(m, FieldsOf(texts, syntax))
    decreases |texts|
  {
    hide FieldOf, Insert;
    if texts != [] {
      var fs := FieldsOf(texts, syntax);
      assert Some(fs[0]) == FieldOf(syntax, texts[0]);
      AddFieldsInserts(Insert(m, fs[0]), texts[1..], syntax);
      assert fs[1..] == FieldsOf(texts[1..], syntax);
    }
  }

  lemma SplitAt(s: string, d: char, k: nat)
    requires Find(s, [d]) == Some(k)
    ensures k < |s| && s == s[..k] + [d] + s[k + 1..] && d !in s[..k]
  {
    assert MatchAt(s, [d], k);
    assert s[k..k + 1] == [d];
    forall j | 0 <= j < k ensures s[j] != d {
      assert !MatchAt(s, [d], j);
      assert s[j..j + 1] == [s[j]];
    }
  }

  lemma LineFieldNone(line: string)
    ensures LineField(line).None? <==> ':' !in line
  {
    match Find(line, ":")
    case None =>
      forall j | 0 <= j < |line| ensures line[j] != ':' {
        assert !MatchAt(line, ":", j);
        assert line[j..j + 1] == [line[j]];
      }
    case Some(k) =>
      assert line[k..k + 1] == ":";
      assert line[k] == ':';
  }

  /** A header line is its name, a colon, at most one dropped space, and its value. */
  lemma LineFieldReprints(line: string, f: Field)
    requires LineField(line) == Some(f)
    ensures ':' !in f.name
    ensures line == f.name + ":" + f.value
            || (line == f.name + ": " + f.value)
    ensures line == f.name + ":" + f.value ==> f.value == "" || f.value[0] != ' '
  {
    var k := Find(line, ":").value;
    SplitAt(line, ':', k);
    if k + 1 < |line| && line[k + 1] == ' ' {
      assert line == line[..k] + ": " + line[k + 2..];
      assert |line| != |f.name + ":" + f.value|;
    }
  }

  /** A header block is rejected exactly when some line has no colon; an accepted one
      yields the first-wins map of its lines. */
  lemma HeaderVerdict(st: State, block: string)
    requires Terminated(block) && st.headers == map[]
    ensures var o := HeaderBlock(st, block);
            && (o.Throw? <==> exists i :: 0 <= i < |Lines(block)| && ':' !in Lines(block)[i])
            && (o.Throw? ==> o.exn == Parsing(BAD_REQUEST))
            && (o.Ok? ==>
                  && (forall i :: 0 <= i < |Lines(block)| ==> FieldOf(HeaderSyntax, Lines(block)[i]).Some?)
                  && FirstWins(FieldsOf(Lines(block), HeaderSyntax), o.st.headers))
  {
    var lines := Lines(block);
    AddFieldsColons(st.headers, lines);
    if AddFields(st.headers, lines, HeaderSyntax).ok {
      AddFieldsInserts(st.headers, lines, HeaderSyntax);
      InsertAllFirstWins(map[], FieldsOf(lines, HeaderSyntax));
    }
  }

  lemma AddFieldsColons(m: FieldMap, lines: seq<string>)
    ensures !AddFields(m, lines, HeaderSyntax).ok <==> exists i :: 0 <= i < |lines| && ':' !in lines[i]
  {
    forall i | 0 <= i < |lines| ensures FieldOf(HeaderSyntax, lines[i]).None? <==> ':' !in lines[i] {
      LineFieldNone(lines[i]);
    }
  }

  /** On every accepted query the map is the first-wins map of its pieces. */
  lemma QueryFirstWins(st: State, text: string)
    requires st.query == map[] && Query(st, text).Ok?
    ensures forall i :: 0 <= i < |Pieces(text)| ==> FieldOf(QuerySyntax, Pieces(text)[i]).Some?
    ensures FirstWins(FieldsOf(Pieces(text), QuerySyntax), Query(st, text).st.query)
  {
    AddFieldsInserts(map[], Pieces(text), QuerySyntax);
    InsertAllFirstWins(map[], FieldsOf(Pieces(text), QuerySyntax));
  }

  // ---- start lines --------------------------------------------------------------

  /** `line` is three parts separated by its first two spaces. */
  predicate ThreeParts(line: string, token: string, target: string, version: string) {
    line == token + " " + target + " " + version && ' ' !in token && ' ' !in target
  }

  ghost predicate KnownToken(line: string) {
    exists verb: Method :: MethodText(verb) <= line
  }

  /** A nonempty path, and after a question mark nothing or only named pieces. */
  ghost predicate GoodTarget(target: string) {
    match Find(target, "?")
    case None => target != ""
    case Some(k) =>
      k > 0 && k < |target| && (target[k + 1..] == "" || AllNamed(Pieces(target[k + 1..])))
  }

  /** `target` is the path, free of question marks, or the path, a question mark and a
      query; `query` is the first-wins map of the query's pieces. */
  ghost predicate Divides(target: string, path: string, query: FieldMap) {
    && '?' !in path
    && (|| (target == path && query == map[])
        || (target == path + "?" && query == map[])
        || (exists q ::
              && target == path + "?" + q && q != "" && AllParse(Pieces(q))
              && FirstWins(FieldsOf(Pieces(q), QuerySyntax), query)))
  }

  ghost predicate AllParse(pieces: seq<string>) {
    forall i :: 0 <= i < |pieces| ==> FieldOf(QuerySyntax, pieces[i]).Some?
  }

  lemma UrlVerdict(st: State, target: string)
    requires st.query == map[]
    ensures var o := Url(st, target);
            && (o.Ok? <==> GoodTarget(target))
            && (o.Throw? ==> o.exn == Parsing(BAD_REQUEST))
            && (o.Ok? ==>
                  && o.st == st.(path := o.st.path, query := o.st.query)
                  && o.st.path != "" && Divides(target, o.st.path, o.st.query))
  {
    hide AddFields, Pieces, MatchAt, Find, AllNamed, FirstWins, FieldOf;
    match Find(target, "?")
    case None => NoMark(target);
    case Some(k) =>
      SplitAt(target, '?', k);
      var q := target[k + 1..];
      assert q != "" <==> |target| > k + 1;
      QueryThrows(st, q);
      if Query(st, q).Ok? {
        QueryFirstWins(st, q);
      }
  }

  lemma NoMark(target: string)
    requires Find(target, "?").None?
    ensures '?' !in target
  {
    forall j | 0 <= j < |target| ensures target[j] != '?' {
      assert !MatchAt(target, "?", j);
      assert target[j..j + 1] == [target[j]];
    }
  }

  /** What becomes of a start line with at least two spaces: accepted exactly with a known
      token, a good target and a supported version; an unsupported version is answered
      505 only when the rest is good; every other fault is a 400. */
  lemma StartLineVerdict(st: State, line: string, token: string, target: string, version: string)
    requires ThreeParts(line, token, target, version) && st.query == map[]
    ensures var o := StartLine(st, line);
            && (o.Ok? <==> KnownToken(line) && GoodTarget(target) && version in {"HTTP/1.1", "HTTP/1.0"})
            && (o.Ok? ==>
                  && MethodText(o.st.verb) <= line && VersionText(o.st.version) == version
                  && o.st.path != "" && Divides(target, o.st.path, o.st.query)
                  && o.st == st.(verb := o.st.verb, version := o.st.version,
                                 path := o.st.path, query := o.st.query))
            && (o.Throw? ==>
                  o.exn == Parsing(if KnownToken(line) && GoodTarget(target) then HTTP_VERSION_NOT_SUPPORTED
                                   else BAD_REQUEST))
  {
    hide Target, GoodTarget, Find, MatchAt, Divides;
    var rest := target + " " + version;
    assert line == token + " " + rest;
    FindAfter(token, " ", rest);
    assert line[|token| + 1..] == rest;
    TokenVerdict(line);
    if KnownToken(line) {
      TargetVerdict(st.(verb := MethodOf(line).value), target, version);
    }
  }

  lemma TokenVerdict(line: string)
    ensures MethodOf(line).Some? <==> KnownToken(line)
    ensures MethodOf(line).Some? ==> MethodText(MethodOf(line).value) <= line
  {
    if verb: Method :| MethodText(verb) <= line {
      match verb
      case GET => assert "GET" <= line;
      case POST => assert "POST" <= line;
      case DELETE => assert "DELETE" <= line;
      case PUT => assert "PUT" <= line;
    }
  }

  lemma TargetVerdict(st: State, target: string, version: string)
    requires ' ' !in target && st.query == map[]
    ensures var o := Target(st, target + " " + version);
            && (o.Ok? <==> GoodTarget(target) && version in {"HTTP/1.1", "HTTP/1.0"})
            && (o.Ok? ==>
                  && VersionText(o.st.version) == version
                  && o.st.path != "" && Divides(target, o.st.path, o.st.query)
                  && o.st == st.(version := o.st.version, path := o.st.path, query := o.st.query))
            && (o.Throw? ==>
                  o.exn == Parsing(if GoodTarget(target) then HTTP_VERSION_NOT_SUPPORTED else BAD_REQUEST))
  {
    hide Url, GoodTarget, Find, MatchAt, Divides;
    var text := target + " " + version;
    FindAfter(target, " ", version);
    assert text[..|target|] == target && text[|target| + 1..] == version;
    UrlVerdict(st, target);
  }

  /** A start line with fewer than two spaces is a 400. */
  lemma StartLineTooShort(st: State, line: string)
    ensures (exists token, target, version :: ThreeParts(line, token, target, version))
            || (StartLine(st, line).Throw? && StartLine(st, line).exn == Parsing(BAD_REQUEST))
  {
    hide Target, MethodOf, Find, MatchAt;
    var first := Find(line, " ");
    if first.Some? {
      var k := first.value;
      SplitAt(line, ' ', k);
      var rest := line[k + 1..];
      var second := Find(rest, " ");
      if second.Some? {
        SplitAt(rest, ' ', second.value);
        var target, version := rest[..second.value], rest[second.value + 1..];
        assert line == line[..k] + " " + target + " " + version;
        assert ThreeParts(line, line[..k], target, version);
      } else if MethodOf(line).Some? {
        TargetTooShort(st.(verb := MethodOf(line).value), rest);
      }
    }
  }

  lemma TargetTooShort(st: State, text: string)
    requires Find(text, " ").None?
    ensures Target(st, text) == Throw(st, Parsing(BAD_REQUEST))
  {
  }

  // ---- a head without headers ----------------------------------------------------

  lemma EmptyFirstLine(st: State, block: string)
    requires Terminated(block) && CRLF <= block && st.headers == map[]
    ensures HeaderBlock(st, block).Throw? && HeaderBlock(st, block).exn == Parsing(BAD_REQUEST)
  {
    assert block == "" + CRLF + block[2..];
    FindAfter("", CRLF, block[2..]);
    assert Lines(block)[0] == "";
    HeaderVerdict(st, block);
  }

  /** A head with no header lines is never accepted: the message waits for more, and once
      another empty line arrives it is answered 400. */
  lemma EmptyHeadNeverDone(line: string, tail: string)
    requires '\r' !in line && StartLine(FRESH, line).Ok?
    ensures var o := OneShot(line + CRLF + CRLF + tail);
            if Find(CRLF + tail, HEAD_END).Some? then o.Throw? && o.exn == Parsing(BAD_REQUEST)
            else o.Ok? && o.st.phase == Headers
  {
    hide StartLine, HeaderBlock, BodyPlan, Find, MatchAt;
    var rest := CRLF + tail;
    var m := line + CRLF + rest;
    assert m == line + CRLF + CRLF + tail;
    FindAfter(line, CRLF, rest);
    assert m[..|line|] == line && m[|line| + 2..] == rest;
    StartLineKeepsHeaders(line);
    var st := LinePhase(FRESH, m).st;
    if Find(rest, HEAD_END).Some? {
      var e := Find(rest, HEAD_END).value;
      FindBound(rest, HEAD_END);
      HeadEndTerminates(rest, e);
      assert CRLF <= rest[..e + 2];
      EmptyFirstLine(st, rest[..e + 2]);
    }
  }

  lemma StartLineKeepsHeaders(line: string)
    ensures StartLine(FRESH, line).st.headers == map[]
  {
    hide AddFields;
  }
}
