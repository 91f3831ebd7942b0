/** What a client reads from a printed response. */
module Printing {
  import opened Text
  import opened Protocol
  import opened ParserSpec
  import opened RoundTrip
  import opened Dissection

  function StatusText(version: Version, code: nat): string {
    VersionText(version) + " " + ToDecimal(code) + " " + ReasonPhrase(code)
  }

  function LineTexts(fs: seq<Field>): (lines: seq<string>)
    ensures |lines| == |fs|
    ensures forall i :: 0 <= i < |fs| ==> lines[i] == fs[i].name + ":" + fs[i].value
  {
    seq(|fs|, i requires 0 <= i < |fs| => fs[i].name + ":" + fs[i].value)
  }

  lemma {:induction false} HeaderLinesAreLines(fs: seq<Field>)
    ensures HeaderLines(fs) == Unlines(LineTexts(fs))
    decreases |fs|
  {
    if fs != [] {
      HeaderLinesAreLines(fs[1..]);
      assert LineTexts(fs)[1..] == LineTexts(fs[1..]);
    }
  }

  lemma {:induction false} DecimalHasNoBreak(n: nat)
    ensures '\r' !in ToDecimal(n)
  {
    forall i | 0 <= i < |ToDecimal(n)| ensures ToDecimal(n)[i] != '\r' {
      assert IsDigit(ToDecimal(n)[i]);
    }
  }

  // No phrase holds a line break, a few codes at a time.

  lemma PhrasesFrom0(code: nat)
    requires 0 <= code < 202
    ensures '\r' !in SuccessPhrase(code)
  {
  }

  lemma PhrasesFrom202(code: nat)
    requires 202 <= code < 300
    ensures '\r' !in SuccessPhrase(code)
  {
  }

  lemma PhrasesFrom300(code: nat)
    requires 300 <= code < 400
    ensures '\r' !in RedirectPhrase(code)
  {
  }

  lemma PhrasesFrom400(code: nat)
    requires 400 <= code < 403
    ensures '\r' !in RequestErrorPhrase(code)
  {
  }

  lemma PhrasesFrom403(code: nat)
    requires 403 <= code < 407
    ensures '\r' !in RequestErrorPhrase(code)
  {
  }

  lemma PhrasesFrom407(code: nat)
    requires 407 <= code < 411
    ensures '\r' !in RequestErrorPhrase(code)
  {
  }

  lemma PhrasesFrom411(code: nat)
    requires 411 <= code < 414
    ensures '\r' !in RequestErrorPhrase(code)
  {
  }

  lemma PhrasesFrom414(code: nat)
    requires 414 <= code < 416
    ensures '\r' !in RequestErrorPhrase(code)
  {
  }

  lemma PhrasesFrom416(code: nat)
    requires 416 <= code < 500
    ensures '\r' !in RequestErrorPhrase(code)
  {
  }

  lemma PhrasesFrom500(code: nat)
    requires 500 <= code < 503
    ensures '\r' !in ServerErrorPhrase(code)
  {
  }

  lemma PhrasesFrom503(code: nat)
    requires code >= 503
    ensures '\r' !in ServerErrorPhrase(code)
  {
  }

  lemma PhraseHasNoBreak(code: nat)
    ensures '\r' !in ReasonPhrase(code)
  {
    hide SuccessPhrase, RedirectPhrase, RequestErrorPhrase, ServerErrorPhrase;
    if code < 202 {
      PhrasesFrom0(code);
    } else if code < 300 {
      PhrasesFrom202(code);
    } else if code < 400 {
      PhrasesFrom300(code);
    } else if code < 403 {
      PhrasesFrom400(code);
    } else if code < 407 {
      PhrasesFrom403(code);
    } else if code < 411 {
      PhrasesFrom407(code);
    } else if code < 414 {
      PhrasesFrom411(code);
    } else if code < 416 {
      PhrasesFrom414(code);
    } else if code < 500 {
      PhrasesFrom416(code);
    } else if code < 503 {
      PhrasesFrom500(code);
    } else {
      PhrasesFrom503(code);
    }
  }

  lemma StatusHasNoBreak(version: Version, code: nat)
    ensures '\r' !in StatusText(version, code)
  {
    hide ReasonPhrase;
    DecimalHasNoBreak(code);
    PhraseHasNoBreak(code);
    assert '\r' !in VersionText(version);
  }

  lemma TokenLines(fs: seq<Field>)
    requires HeaderTokens(fs)
    ensures forall i :: 0 <= i < |fs| ==>
              && Unbroken(LineTexts(fs)[i]) && LineTexts(fs)[i] != ""
              && LineField(LineTexts(fs)[i]) == Some(fs[i])
  {
    hide Find, LineField;
    forall i | 0 <= i < |fs|
      ensures Unbroken(LineTexts(fs)[i]) && LineTexts(fs)[i] != "" && LineField(LineTexts(fs)[i]) == Some(fs[i])
    {
      assert HeaderToken(fs[i]);
      HeaderLineRoundTrip(fs[i]);
      FindNothing(LineTexts(fs)[i], CRLF);
    }
  }

  /** A printed response with headers free of delimiters can be taken apart, and in one way
      only: a status line of version, decimal code and reason phrase, one line for each
      header in order, from which the header is read back, and after an empty line exactly
      the body. */
  lemma DumpReadsBack(r: Response, line: string, lines: seq<string>, tail: string)
    requires r.headers != [] && HeaderTokens(r.headers)
    ensures Dissects(DumpText(r), line, lines, tail) <==>
            && line == VersionText(r.version) + " " + ToDecimal(r.code) + " " + ReasonPhrase(r.code)
            && lines == LineTexts(r.headers) && tail == r.body
    ensures forall i :: 0 <= i < |r.headers| ==> LineField(LineTexts(r.headers)[i]) == Some(r.headers[i])
  {
    hide Find, ReasonPhrase, LineField, Unlines, HeaderLines;
    var status := StatusText(r.version, r.code);
    StatusHasNoBreak(r.version, r.code);
    FindNothing(status, CRLF);
    TokenLines(r.headers);
    HeaderLinesAreLines(r.headers);
    var own := LineTexts(r.headers);
    assert DumpText(r) == status + CRLF + (Unlines(own) + CRLF + r.body);
    assert Dissects(DumpText(r), status, own, r.body);
    if Dissects(DumpText(r), line, lines, tail) {
      DissectionUnique(DumpText(r), line, lines, tail, status, own, r.body);
    }
  }

  /** A response whose body was set last reads back with that body, and, if no earlier
      header claims a length, with its length under every spelling of Content-Length. */
  lemma SetBodyReadsBack(r: Response, body: string, name: string)
    requires HeaderTokens(r.headers) && |body| <= ULLONG_MAX
    requires FirstNamed(r.headers, "Content-Length").None? && SameName(name, "Content-Length")
    ensures var r' := WithBody(r, body);
            var f := FirstNamed(r'.headers, name);
            && Dissects(DumpText(r'), VersionText(r.version) + " " + ToDecimal(r.code) + " " + ReasonPhrase(r.code),
                        LineTexts(r'.headers), body)
            && r'.headers[..|r.headers|] == r.headers
            && f.Some? && Stoull(f.value.value) == Number(|body|)
  {
    hide DumpText, ReasonPhrase, ToDecimal, Stoull, Dissects;
    var r' := WithBody(r, body);
    LengthToken(body);
    DumpReadsBack(r', StatusText(r.version, r.code), LineTexts(r'.headers), body);
    FoldSame(name, "Content-Length");
    NamedSame(r.headers, name, "Content-Length");
    NamedLast(r.headers, ContentLength(body), name);
    StoullOfDecimal(|body|);
  }

  lemma LengthToken(body: string)
    ensures HeaderToken(ContentLength(body))
  {
    DecimalHasNoBreak(|body|);
    assert IsDigit(ToDecimal(|body|)[0]);
  }

  lemma {:induction false} NamedSame(fs: seq<Field>, a: string, b: string)
    requires SameName(a, b)
    ensures FirstNamed(fs, a) == FirstNamed(fs, b)
  {
    hide SameName;
    if fs != [] {
      FoldSame(a, b);
      FoldSame(fs[0].name, a);
      FoldSame(fs[0].name, b);
      NamedSame(fs[1..], a, b);
    }
  }

  lemma {:induction false} NamedLast(fs: seq<Field>, f: Field, name: string)
    requires FirstNamed(fs, name).None? && SameName(f.name, name)
    ensures FirstNamed(fs + [f], name) == Some(f)
  {
    if fs != [] {
      NamedLast(fs[1..], f, name);
      assert (fs + [f])[1..] == fs[1..] + [f];
    }
  }

  /** Without headers the empty line follows the status line at once. */
  lemma BareDumpReadsBack(r: Response)
    requires r.headers == []
    ensures var status := VersionText(r.version) + " " + ToDecimal(r.code) + " " + ReasonPhrase(r.code);
            && Find(DumpText(r), CRLF) == Find(DumpText(r), HEAD_END) == Some(|status|)
            && DumpText(r)[..|status|] == status && DumpText(r)[|status| + 4..] == r.body
  {
    hide ReasonPhrase, Find, ToDecimal, VersionText, MatchAt;
    var status := StatusText(r.version, r.code);
    StatusHasNoBreak(r.version, r.code);
    assert HeaderLines(r.headers) == "";
    assert DumpText(r) == status + CRLF + (CRLF + r.body);
    assert DumpText(r) == status + HEAD_END + r.body;
    FindAfter(status, CRLF, CRLF + r.body);
    FindAfter(status, HEAD_END, r.body);
  }

  lemma ErrorDecimals()
    ensures ToDecimal(400) == "400" && ToDecimal(505) == "505"
  {
    assert ToDecimal(4) == "4" && ToDecimal(40) == "40" && ToDecimal(400) == "400";
    assert ToDecimal(5) == "5" && ToDecimal(50) == "50" && ToDecimal(505) == "505";
  }

  lemma ErrorPhrases()
    ensures ReasonPhrase(400) == "Bad Request" && ReasonPhrase(505) == "HTTP Version Not Supported"
  {
  }

  /** The two error responses of the parser, byte for byte. */
  lemma ErrorTexts()
    ensures DumpText(Response(HTTP10, 400, [], "")) == "HTTP/1.0" + " " + "400" + " " + "Bad Request" + CRLF + CRLF
    ensures DumpText(Response(HTTP10, 505, [], ""))
            == "HTTP/1.0" + " " + "505" + " " + "HTTP Version Not Supported" + CRLF + CRLF
  {
    hide ToDecimal, ReasonPhrase;
    ErrorDecimals();
    ErrorPhrases();
    assert HeaderLines([]) == "";
  }
}
