/** Laws of the incremental parser: the outcome does not depend on how the bytes arrive,
    and exactly one byte beyond those received can change it. */
module ParserLaws {
  import opened Text
  import opened ParserSpec

  // ---- chunk independence -----------------------------------------------

  lemma LineStable(m1: string, m2: string)
    requires m1 <= m2
    ensures LinePhase(FRESH, m1) == Ok(FRESH)
            || (LinePhase(FRESH, m2) == LinePhase(FRESH, m1)
                && (LinePhase(FRESH, m1).Ok? ==> LinePhase(FRESH, m1).st.phase == Headers))
  {
    if Find(m1, CRLF).Some? {
      FindExtends(m1, m2, CRLF);
      var k := Find(m1, CRLF).value;
      assert m2[..k] == m1[..k];
    }
  }

  lemma HeadStable(st: State, m1: string, m2: string)
    requires m1 <= m2 && st.phase == Headers && st.parsedTotal <= |m1|
    ensures HeadPhase(st, m1) == Ok(st)
            || (HeadPhase(st, m2) == HeadPhase(st, m1)
                && (HeadPhase(st, m1).Ok? ==> HeadPhase(st, m1).st.phase in {Body, Done}))
  {
    hide AddFields, Stoull, Lines;
    var r1, r2 := m1[st.parsedTotal..], m2[st.parsedTotal..];
    assert r1 <= r2;
    if Find(r1, HEAD_END).Some? {
      FindExtends(r1, r2, HEAD_END);
      var e := Find(r1, HEAD_END).value;
      assert MatchAt(r1, HEAD_END, e);
      assert r2[..e + 2] == r1[..e + 2];
    }
  }

  /** A complete header block always takes the parser out of the header phase. */
  lemma HeadPhaseMoves(st: State, m: string)
    requires st.phase == Headers && st.parsedTotal <= |m|
    requires Find(m[st.parsedTotal..], HEAD_END).Some?
    ensures HeadPhase(st, m).Ok? ==> HeadPhase(st, m).st.phase in {Body, Done}
  {
    hide AddFields, Stoull, Lines, Find;
  }

  lemma BodyStable(st: State, m1: string, m2: string)
    requires m1 <= m2 && st.parsedTotal <= |m1|
    ensures BodyPhase(st, m1) == st || BodyPhase(st, m2) == BodyPhase(st, m1)
  {
    if BodyPhase(st, m1) != st {
      assert m2[st.parsedTotal..][..st.bodyLength] == m1[st.parsedTotal..][..st.bodyLength];
    }
  }

  /** One parser re-run on a longer buffer ends where a new parser on that buffer ends. */
  lemma ParseExtends(m1: string, m2: string)
    requires m1 <= m2
    ensures OneShot(m1).Throw? ==> OneShot(m2) == OneShot(m1)
    ensures OneShot(m1).Ok? ==> Parse(OneShot(m1).st, m2) == OneShot(m2)
    ensures OneShot(m1).Ok? && OneShot(m1).st.phase == Done ==> OneShot(m2) == OneShot(m1)
  {
    hide StartLine, HeadResult;
    LineStable(m1, m2);
    var l := LinePhase(FRESH, m1);
    if l != Ok(FRESH) && l.Ok? {
      LinePhaseBound(FRESH, m1);
      HeadStable(l.st, m1, m2);
      var h := HeadPhase(l.st, m1);
      if h != Ok(l.st) && h.Ok? {
        HeadPhaseBound(l.st, m1);
        BodyStable(h.st, m1, m2);
        assert OneShot(m2) == Ok(BodyPhase(h.st, m2));
      }
    }
  }

  ghost predicate Growing(ms: seq<string>) {
    forall i, j :: 0 <= i < j < |ms| ==> ms[i] <= ms[j]
  }

  /** One parser fed the buffers in turn, until it throws. */
  function Feed(ms: seq<string>): (o: Outcome)
    requires ms != [] && Growing(ms)
    ensures o.Ok? ==> o.st.parsedTotal <= |ms[|ms| - 1]|
  {
    if |ms| == 1 then OneShot(ms[0])
    else
      var o := Feed(ms[..|ms| - 1]);
      assert ms[|ms| - 2] <= ms[|ms| - 1];
      if o.Throw? then o else Parse(o.st, ms[|ms| - 1])
  }

  /** Chunk independence: state or exception depend on the last buffer only. */
  lemma {:induction false} ChunkIndependence(ms: seq<string>)
    requires ms != [] && Growing(ms)
    ensures Feed(ms) == OneShot(ms[|ms| - 1])
  {
    hide OneShot, Parse;
    if |ms| > 1 {
      ChunkIndependence(ms[..|ms| - 1]);
      ParseExtends(ms[|ms| - 2], ms[|ms| - 1]);
    }
  }

  /** Parsing the same bytes again changes nothing. */
  lemma ParseIdempotent(m: string)
    requires OneShot(m).Ok?
    ensures Parse(OneShot(m).st, m) == OneShot(m)
  {
    ParseExtends(m, m);
  }

  // ---- one byte too many ------------------------------------------------

  lemma FindOneMore(v: string, b: char, p: string)
    requires Find(v, p).None? && |p| > 0
    ensures Find(v + [b], p).Some? <==> |p| <= |v| + 1 && (v + [b])[|v| + 1 - |p|..] == p
  {
    var w := v + [b];
    forall j: nat | j + |p| <= |v| ensures !MatchAt(w, p, j) {
      assert w[j..j + |p|] == v[j..j + |p|];
      assert !MatchAt(v, p, j);
    }
    if |p| <= |w| {
      var last := |w| - |p|;
      assert w[last..] == w[last..last + |p|];
      if w[last..] == p {
        assert MatchAt(w, p, last);
      }
      if Find(w, p).Some? {
        assert MatchAt(w, p, Find(w, p).value);
        assert Find(w, p).value == last;
      }
    }
  }

  /** Byte `b` after `v` is the one the parser in state `st` is waiting for. */
  predicate Completes(st: State, v: string, b: char)
    requires st.parsedTotal <= |v|
  {
    match st.phase
    case RequestLine => |v| >= 1 && v[|v| - 1] == '\r' && b == '\n'
    case Headers => |v| - st.parsedTotal >= 3 && v[|v| - 3..] == "\r\n\r" && b == '\n'
    case Body => |v| - st.parsedTotal + 1 == st.bodyLength
    case Done => false
    case Error => false
  }

  lemma OneShotPhases(v: string)
    requires OneShot(v).Ok?
    ensures var st := OneShot(v).st;
            match st.phase
            case RequestLine => st == FRESH && Find(v, CRLF).None?
            case Headers => LinePhase(FRESH, v) == Ok(st) && Find(v[st.parsedTotal..], HEAD_END).None?
            case Body => |v| - st.parsedTotal < st.bodyLength
            case Done => true
            case Error => false
  {
    hide StartLine, HeadResult;
    LinePhaseBound(FRESH, v);
    LineStable(v, v);
    var l := LinePhase(FRESH, v).st;
    if l.phase == Headers {
      HeadPhaseBound(l, v);
      HeadStable(l, v, v);
      if Find(v[l.parsedTotal..], HEAD_END).Some? {
        HeadPhaseMoves(l, v);
      }
    }
  }

  lemma ExtraByteLine(v: string, b: char)
    requires Find(v, CRLF).None?
    ensures OneShot(v + [b]) == Ok(FRESH) <==> !Completes(FRESH, v, b)
  {
    var w := v + [b];
    FindOneMore(v, b, CRLF);
    if |v| >= 1 {
      assert w[|v| - 1..] == [v[|v| - 1], b];
    }
    LineStable(w, w);
    if Find(w, CRLF).Some? {
      OneShotPhasesAfterLine(w);
    }
  }

  /** Once the start line is complete the parser has left its first phase or thrown. */
  lemma OneShotPhasesAfterLine(w: string)
    requires Find(w, CRLF).Some?
    ensures OneShot(w) != Ok(FRESH)
  {
    if OneShot(w).Ok? {
      OneShotPhases(w);
    }
  }

  lemma HeadEndOneMore(rest: string, b: char)
    requires Find(rest, HEAD_END).None?
    ensures Find(rest + [b], HEAD_END).Some?
            <==> |rest| >= 3 && rest[|rest| - 3..] == "\r\n\r" && b == '\n'
  {
    FindOneMore(rest, b, HEAD_END);
    if |rest| >= 3 {
      var t := rest[|rest| - 3..];
      assert (rest + [b])[|rest| - 3..] == t + [b];
      assert |t| == 3 && t == (t + [b])[..3] && b == (t + [b])[3];
      assert HEAD_END[..3] == "\r\n\r" && HEAD_END == "\r\n\r" + ['\n'];
    }
  }

  lemma ExtraByteHead(st: State, v: string, b: char)
    requires st.phase == Headers && st.parsedTotal <= |v|
    requires Find(v[st.parsedTotal..], HEAD_END).None?
    ensures Parse(st, v + [b]) == Ok(st) <==> !Completes(st, v, b)
  {
    hide HeadResult, Find;
    var rest := v[st.parsedTotal..];
    var w := v + [b];
    assert w[st.parsedTotal..] == rest + [b];
    HeadEndOneMore(rest, b);
    assert |rest| >= 3 ==> rest[|rest| - 3..] == v[|v| - 3..];
    HeadStable(st, w, w);
    HeadPhaseBound(st, w);
    if Find(rest + [b], HEAD_END).Some? {
      HeadPhaseMoves(st, w);
    }
  }

  /** Showing the parser one byte beyond those received changes its outcome exactly
      when that byte is the one it is waiting for. */
  lemma ExtraByte(v: string, b: char)
    requires OneShot(v).Ok?
    ensures OneShot(v + [b]) == OneShot(v) <==> !Completes(OneShot(v).st, v, b)
  {
    var st := OneShot(v).st;
    OneShotPhases(v);
    ParseExtends(v, v + [b]);
    match st.phase
    case RequestLine => ExtraByteLine(v, b);
    case Headers => ExtraByteHead(st, v, b);
    case Body =>
    case Done =>
    case Error =>
  }
}
