/** Taking a message apart: a start line, head lines up to the first empty one, and what
    follows. There is at most one way, and the parser's finds lead to it. */
module Dissection {
  import opened Text
  import opened ParserSpec
  import opened RoundTrip

  ghost predicate Unbroken(s: string) { Find(s, CRLF).None? }

  /** Lines up to the first empty one, which only the first may be itself. */
  ghost predicate HeadLines(lines: seq<string>) {
    && lines != []
    && (forall i :: 0 <= i < |lines| ==> Unbroken(lines[i]))
    && (forall i :: 0 < i < |lines| ==> lines[i] != "")
  }

  /** A start line, a head of lines closed by an empty one, and what follows. */
  ghost predicate Dissects(m: string, line: string, lines: seq<string>, tail: string) {
    && m == line + CRLF + (Unlines(lines) + CRLF + tail)
    && Unbroken(line) && HeadLines(lines)
  }

  lemma LineEndFound(line: string, rest: string)
    requires Unbroken(line)
    ensures Find(line + CRLF + rest, CRLF) == Some(|line|)
  {
    var s := line + CRLF + rest;
    assert s[|line|..|line| + 2] == CRLF;
    forall j | 0 <= j < |line| ensures !MatchAt(s, CRLF, j) {
      assert !MatchAt(line, CRLF, j);
      if j + 2 <= |line| {
        assert s[j..j + 2] == line[j..j + 2];
      } else {
        assert s[j..j + 2][1] == '\r';
      }
    }
    FindIs(s, CRLF, |line|);
  }

  lemma ShiftMatch(a: string, b: string, p: string, j: nat)
    ensures MatchAt(a + b, p, |a| + j) <==> MatchAt(b, p, j)
  {
    if j + |p| <= |b| {
      assert (a + b)[|a| + j..|a| + j + |p|] == b[j..j + |p|];
    }
  }

  /** The end of a head begins with a line end, and another one follows it. */
  lemma HeadEndIsTwoEnds(s: string, j: nat)
    ensures MatchAt(s, HEAD_END, j) <==> MatchAt(s, CRLF, j) && MatchAt(s, CRLF, j + 2)
  {
    if j + 4 <= |s| {
      assert s[j..j + 4] == s[j..j + 2] + s[j + 2..j + 4];
      assert s[j..j + 4][..2] == s[j..j + 2] && s[j..j + 4][2..] == s[j + 2..j + 4];
      assert HEAD_END[..2] == CRLF && HEAD_END[2..] == CRLF && CRLF + CRLF == HEAD_END;
    }
  }

  /** Before the end of the first line no head ends; at it, one does if the next line is
      empty. */
  lemma HeadEndInLine(line: string, b: string, j: nat)
    requires Unbroken(line) && j < |line| + 2
    ensures MatchAt(line + CRLF + b, HEAD_END, j) <==> j == |line| && MatchAt(b, CRLF, 0)
  {
    var s := line + CRLF + b;
    LineEndFound(line, b);
    HeadEndIsTwoEnds(s, j);
    ShiftMatch(line + CRLF, b, CRLF, 0);
    if j == |line| + 1 {
      assert s[j] == '\n';
      NoMatchWithoutFirst(s, CRLF, j);
    }
  }

  lemma UnlinesLonger(lines: seq<string>)
    ensures lines != [] ==> |Unlines(lines)| >= 2
  {
  }

  /** The first empty line after head lines ends the head. */
  lemma {:induction false} HeadFound(lines: seq<string>, tail: string)
    requires HeadLines(lines)
    ensures |Unlines(lines)| >= 2
    ensures Find(Unlines(lines) + CRLF + tail, HEAD_END) == Some(|Unlines(lines)| - 2)
    decreases |lines|
  {
    hide Find, MatchAt, Unbroken, Unlines;
    UnlinesLonger(lines);
    var line, more := lines[0], lines[1..];
    UnlinesFirst(lines, tail);
    if more == [] {
      assert Unlines(more) + CRLF + tail == CRLF + tail by { UnlinesNothing(tail); }
      HeadEndHere(line, tail);
    } else {
      HeadFound(more, tail);
      UnlinesFirst(more, tail);
      HeadEndLater(line, more[0], Unlines(more[1..]) + CRLF + tail);
    }
  }

  lemma UnlinesFirst(lines: seq<string>, tail: string)
    requires lines != []
    ensures Unlines(lines) + CRLF + tail == lines[0] + CRLF + (Unlines(lines[1..]) + CRLF + tail)
    ensures |Unlines(lines)| == |lines[0]| + 2 + |Unlines(lines[1..])|
  {
  }

  lemma UnlinesNothing(tail: string)
    ensures Unlines([]) == "" && Unlines([]) + CRLF + tail == CRLF + tail
  {
  }

  lemma HeadEndHere(line: string, tail: string)
    requires Unbroken(line)
    ensures Find(line + CRLF + (CRLF + tail), HEAD_END) == Some(|line|)
  {
    hide Find;
    var b := CRLF + tail;
    assert b[0..2] == CRLF;
    forall j | 0 <= j <= |line| ensures MatchAt(line + CRLF + b, HEAD_END, j) <==> j == |line| {
      HeadEndInLine(line, b, j);
    }
    FindIs(line + CRLF + b, HEAD_END, |line|);
  }

  /** A line before one that is not empty moves the end of the head. */
  lemma HeadEndLater(line: string, next: string, rest: string)
    requires Unbroken(line) && Unbroken(next) && next != ""
    ensures var b := next + CRLF + rest;
            Find(b, HEAD_END).Some? ==>
              Find(line + CRLF + b, HEAD_END) == Some(|line| + 2 + Find(b, HEAD_END).value)
  {
    hide Find;
    var b := next + CRLF + rest;
    LineEndFound(next, rest);
    assert !MatchAt(b, CRLF, 0);
    forall j | 0 <= j < |line + CRLF| ensures !MatchAt(line + CRLF + b, HEAD_END, j) {
      HeadEndInLine(line, b, j);
    }
    FindSkips(line + CRLF, b, HEAD_END);
  }

  /** Head lines are what the header loop visits. */
  lemma {:induction false} LinesOfUnlines(lines: seq<string>)
    requires forall i :: 0 <= i < |lines| ==> Unbroken(lines[i])
    ensures Terminated(Unlines(lines)) && Lines(Unlines(lines)) == lines
    decreases |lines|
  {
    hide Find;
    if lines != [] {
      var line, more := lines[0], lines[1..];
      LinesOfUnlines(more);
      var block, b := Unlines(lines), Unlines(more);
      assert block == line + CRLF + b;
      LineEndFound(line, b);
      TerminatedAfter(line, b);
      assert block[..|line|] == line && block[|line| + 2..] == b;
      assert lines == [line] + more;
    }
  }

  lemma TerminatedAfter(line: string, b: string)
    requires Terminated(b)
    ensures Terminated(line + CRLF + b)
  {
    var s := line + CRLF + b;
    if b == "" {
      assert s[|s| - 2..] == CRLF;
    } else {
      assert s[|s| - 2..] == b[|b| - 2..];
    }
  }

  /** A block in front of the first empty line is made of head lines. */
  lemma {:induction false} BlockIsHeadLines(block: string)
    requires Terminated(block) && block != ""
    requires forall j :: 0 <= j < |block| - 2 ==> !MatchAt(block + CRLF, HEAD_END, j)
    ensures HeadLines(Lines(block))
    decreases |block|
  {
    hide Find, MatchAt;
    TerminatedStep(block);
    LinesUnbroken(block);
    var k := Find(block, CRLF).value;
    var line, b := block[..k], block[k + 2..];
    assert MatchAt(block, CRLF, k);
    LineSplit(block, k);
    BeforeMatch(block, CRLF);
    assert Lines(block) == [line] + Lines(b);
    if b != "" {
      assert block + CRLF == line + CRLF + (b + CRLF);
      forall j | 0 <= j < |b| - 2 ensures !MatchAt(b + CRLF, HEAD_END, j) {
        ShiftMatch(line + CRLF, b + CRLF, HEAD_END, j);
        assert !MatchAt(block + CRLF, HEAD_END, k + 2 + j);
      }
      BlockIsHeadLines(b);
      NextLineNotEmpty(line, b);
    }
  }

  lemma NextLineNotEmpty(line: string, b: string)
    requires Unbroken(line) && Terminated(b) && b != ""
    requires !MatchAt(line + CRLF + (b + CRLF), HEAD_END, |line|)
    ensures Lines(b)[0] != ""
  {
    hide Find;
    TerminatedStep(b);
    FindBound(b, CRLF);
    HeadEndInLine(line, b + CRLF, |line|);
    StartsLonger(b, CRLF, CRLF);
  }

  lemma StartsLonger(b: string, more: string, p: string)
    ensures MatchAt(b, p, 0) ==> MatchAt(b + more, p, 0)
  {
    assert |p| <= |b| ==> (b + more)[0..|p|] == b[0..|p|];
  }

  /** Every message whose head is complete can be dissected. */
  lemma CompleteHead(m: string) returns (line: string, lines: seq<string>, tail: string)
    requires var e := Find(m, CRLF);
             e.Some? && e.value + 2 <= |m| && Find(m[e.value + 2..], HEAD_END).Some?
    ensures Dissects(m, line, lines, tail)
  {
    hide Find;
    var k := Find(m, CRLF).value;
    FindBound(m, CRLF);
    LineSplit(m, k);
    BeforeMatch(m, CRLF);
    var rest := m[k + 2..];
    var e := Find(rest, HEAD_END).value;
    FindBound(rest, HEAD_END);
    HeadEndTerminates(rest, e);
    var block := rest[..e + 2];
    line, lines, tail := m[..k], Lines(block), rest[e + 4..];
    assert rest == block + CRLF + tail by {
      assert rest[e..e + 4] == HEAD_END;
      assert rest[e + 2..e + 4] == rest[e..e + 4][2..] == CRLF;
    }
    forall j | 0 <= j < |block| - 2 ensures !MatchAt(block + CRLF, HEAD_END, j) {
      assert !MatchAt(rest, HEAD_END, j);
      assert j + 4 <= |block + CRLF|;
      assert (block + CRLF)[j..j + 4] == rest[j..j + 4];
    }
    BlockIsHeadLines(block);
    LinesRejoin(block);
  }

  /** A dissection is where the parser's finds lead. */
  lemma DissectedPhases(m: string, line: string, lines: seq<string>, tail: string)
    requires Dissects(m, line, lines, tail)
    ensures var head := Unlines(lines);
            && Find(m, CRLF) == Some(|line|) && m[..|line|] == line
            && |m| == |line| + |head| + |tail| + 4 && |head| >= 2
            && Find(m[|line| + 2..], HEAD_END) == Some(|head| - 2)
            && m[|line| + 2..][..|head|] == head
            && m[|line| + |head| + 4..] == tail
            && Terminated(head) && Lines(head) == lines
  {
    hide Find;
    var head := Unlines(lines);
    var rest := head + CRLF + tail;
    LineEndFound(line, rest);
    assert m[|line| + 2..] == rest;
    HeadFound(lines, tail);
    LinesOfUnlines(lines);
  }

  lemma DissectionUnique(m: string, line: string, lines: seq<string>, tail: string,
                         line': string, lines': seq<string>, tail': string)
    requires Dissects(m, line, lines, tail) && Dissects(m, line', lines', tail')
    ensures line == line' && lines == lines' && tail == tail'
  {
    hide Find, Dissects, Lines;
    DissectedPhases(m, line, lines, tail);
    DissectedPhases(m, line', lines', tail');
  }
}
