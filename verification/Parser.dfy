/** The parser object: its fields, its loops over shrinking views, its exceptions. */
module Parser {
  import opened Text
  import opened Protocol
  import opened ParserSpec

  class HttpRequestParser {
    var bodyLength: nat
    var parsedTotal: nat
    var phase: Phase
    var query: FieldMap
    var headers: FieldMap
    var body: string
    var path: string
    var version: Version
    var verb: Method

    function Value(): State
      reads this
    {
      State(phase, parsedTotal, bodyLength, verb, version, path, query, headers, body)
    }

    constructor ()
      ensures Value() == FRESH
    {
      bodyLength, parsedTotal, phase := 0, 0, RequestLine;
      query, headers, body, path, version, verb := map[], map[], "", "", HTTP10, GET;
    }

    /** The state and exception left behind are those of `o`. */
    ghost predicate Leaves(o: Outcome, exn: Option<Exn>)
      reads this
    {
      Value() == o.st && exn == (if o.Throw? then Some(o.exn) else None)
    }

    method ParseQueryParameters(text: string) returns (exn: Option<Exn>)
      modifies this`query
      ensures Leaves(Query(old(Value()), text), exn)
    {
      var view := text;
      while true
        invariant AddFields(query, Pieces(view), QuerySyntax) == AddFields(old(query), Pieces(text), QuerySyntax)
        decreases |view|
      {
        var sep := Find(view, "&");
        var paramEnd := if sep.None? then |view| else sep.value;
        var param := view[..paramEnd];
        assert Pieces(view)[0] == param;
        var delim := Find(param, "=");
        if delim.None? {
          return Some(Parsing(BAD_REQUEST));
        }
        query := Insert(query, Field(param[..delim.value], param[delim.value + 1..]));
        if |view| == paramEnd {
          assert Pieces(view)[1..] == [];
          return None;
        }
        assert Pieces(view)[1..] == Pieces(view[paramEnd + 1..]);
        view := view[paramEnd + 1..];
      }
    }

    method ParseUrl(url: string) returns (exn: Option<Exn>)
      modifies this`query, this`path, this`phase
      ensures Leaves(Url(old(Value()), url), exn)
    {
      hide Query;
      var mark := Find(url, "?");
      exn := None;
      if mark.Some? && |url| > mark.value + 1 {
        exn := ParseQueryParameters(url[mark.value + 1..]);
        if exn.Some? { return; }
      }
      path := if mark.Some? then url[..mark.value] else url;
      if |path| == 0 {
        phase := Error;
        exn := Some(Parsing(BAD_REQUEST));
      }
    }

    method ParseVersion(text: string) returns (exn: Option<Exn>)
      modifies this`version
      ensures Leaves(VersionOf(old(Value()), text), exn)
    {
      exn := None;
      if text == "HTTP/1.1" {
        version := HTTP11;
      } else if text == "HTTP/1.0" {
        version := HTTP10;
      } else {
        exn := Some(Parsing(HTTP_VERSION_NOT_SUPPORTED));
      }
    }

    /** Everything after the request token: target, one space, version. */
    method ParseTarget(text: string) returns (exn: Option<Exn>)
      modifies this`query, this`path, this`phase, this`version
      ensures Leaves(Target(old(Value()), text), exn)
    {
      hide Url, VersionOf;
      var pathEnd := Find(text, " ");
      if pathEnd.None? {
        return Some(Parsing(BAD_REQUEST));
      }
      exn := ParseUrl(text[..pathEnd.value]);
      if exn.Some? { return; }
      exn := ParseVersion(text[pathEnd.value + 1..]);
    }

    method ParseStartLine(line: string) returns (exn: Option<Exn>)
      modifies this`query, this`path, this`phase, this`version, this`verb
      ensures Leaves(StartLine(old(Value()), line), exn)
    {
      hide Target;
      var afterToken := Find(line, " ");
      if afterToken.None? {
        return Some(Parsing(BAD_REQUEST));
      }
      if "GET" <= line {
        verb := GET;
      } else if "POST" <= line {
        verb := POST;
      } else if "DELETE" <= line {
        verb := DELETE;
      } else if "PUT" <= line {
        verb := PUT;
      } else {
        return Some(Parsing(BAD_REQUEST));
      }
      exn := ParseTarget(line[afterToken.value + 1..]);
    }

    /** Parses the first `len` bytes of `block`. The byte after the colon may be the
        one just past the line, which is the CR that ended it. */
    method ParseHeader(block: string, len: nat) returns (exn: Option<Exn>)
      requires len < |block| && block[len] == '\r'
      modifies this`headers
      ensures var f := LineField(block[..len]);
              if f.None? then headers == old(headers) && exn == Some(Parsing(BAD_REQUEST))
              else headers == Insert(old(headers), f.value) && exn == None
    {
      var header := block[..len];
      var colon := Find(header, ":");
      if colon.None? {
        return Some(Parsing(BAD_REQUEST));
      }
      FindBound(header, ":");
      var delim := colon.value;
      if block[delim + 1] == ' ' {
        delim := delim + 1;
      }
      var count := if header[len - 1] == ' ' then len - 1 else len;
      var valueBegin := delim + 1;
      // substr(valueBegin, count): the count reaches past the end for every header
      var valueEnd := if valueBegin + count < len then valueBegin + count else len;
      assert count >= len - 1 && valueBegin >= 1 && valueBegin + count >= len == |header|;
      assert header[valueBegin..valueEnd] == header[valueBegin..];
      headers := Insert(headers, Field(header[..colon.value], header[valueBegin..valueEnd]));
      return None;
    }

    method ParseHeaders(block: string) returns (exn: Option<Exn>)
      requires Terminated(block)
      modifies this`headers
      ensures Leaves(HeaderBlock(old(Value()), block), exn)
    {
      var view := block;
      while view != ""
        invariant Terminated(view)
        invariant AddFields(headers, Lines(view), HeaderSyntax) == AddFields(old(headers), Lines(block), HeaderSyntax)
        decreases |view|
      {
        TerminatedStep(view);
        var len := Find(view, CRLF).value;
        exn := ParseHeader(view, len);
        assert Lines(view)[0] == view[..len] && Lines(view)[1..] == Lines(view[len + 2..]);
        if exn.Some? { return; }
        view := view[len + 2..];
      }
      return None;
    }

    /** The READING_REQUEST_LINE branch of `Parse`. */
    method FinishStartLine(buffer: string) returns (exn: Option<Exn>)
      requires phase == RequestLine && parsedTotal == 0
      modifies this
      ensures Leaves(LinePhase(old(Value()), buffer), exn)
    {
      hide StartLine;
      var message := buffer[parsedTotal..];
      assert message == buffer;
      exn := None;
      var lineEnd := Find(message, CRLF);
      if lineEnd.Some? {
        FindBound(message, CRLF);
        exn := ParseStartLine(message[..lineEnd.value]);
        if exn.Some? { return; }
        phase := Headers;
        parsedTotal := lineEnd.value + 2;
      }
    }

    /** What follows the header block: nothing, or a body of announced length. */
    method PlanBody(headEnd: nat) returns (exn: Option<Exn>)
      modifies this`phase, this`bodyLength, this`parsedTotal
      ensures Leaves(BodyPlan(old(Value()), headEnd + 4), exn)
    {
      hide Stoull;
      if verb == GET || verb == DELETE {
        phase := Done;
        return None;
      }
      if CONTENT_LENGTH !in headers {
        phase := Done;
        return None;
      }
      match Stoull(headers[CONTENT_LENGTH].value) {
        case NotANumber => return Some(InvalidArgument);
        case TooLarge => return Some(OutOfRange);
        case Number(n) => bodyLength := n;
      }
      phase := Body;
      parsedTotal := parsedTotal + headEnd + 4;
      return None;
    }

    method FinishHead(block: string, headEnd: nat) returns (exn: Option<Exn>)
      requires Terminated(block)
      modifies this
      ensures Leaves(HeadResult(old(Value()), block, headEnd + 4), exn)
    {
      hide HeaderBlock, BodyPlan;
      exn := ParseHeaders(block);
      if exn.Some? { return; }
      exn := PlanBody(headEnd);
    }

    /** The READING_HEADERS branch of `Parse`. */
    method FinishHeaders(buffer: string) returns (exn: Option<Exn>)
      requires phase == Headers && parsedTotal <= |buffer|
      modifies this
      ensures Leaves(HeadPhase(old(Value()), buffer), exn)
    {
      hide HeadResult, MatchAt, Terminated, Find;
      ghost var st := Value();
      var message := buffer[parsedTotal..];
      var headEnd := Find(message, HEAD_END);
      if headEnd.None? {
        return None;
      }
      HeadEndTerminates(message, headEnd.value);
      var block := message[..headEnd.value + 2];
      assert HeadPhase(st, buffer) == HeadResult(st, block, headEnd.value + 4);
      exn := FinishHead(block, headEnd.value);
    }

    /** Re-run on the growing buffer after every read. */
    method Parse(buffer: string) returns (exn: Option<Exn>)
      requires Unconsumed(Value()) && parsedTotal <= |buffer|
      modifies this
      ensures Leaves(ParserSpec.Parse(old(Value()), buffer), exn)
      ensures exn.None? ==> Unconsumed(Value()) && parsedTotal <= |buffer|
    {
      hide LinePhase, HeadPhase;
      exn := None;
      LinePhaseBound(Value(), buffer);
      LinePhaseIdle(Value(), buffer);
      if phase == RequestLine {
        LinePhaseUnconsumed(Value(), buffer);
        exn := FinishStartLine(buffer);
        if exn.Some? { return; }
      }
      HeadPhaseBound(Value(), buffer);
      HeadPhaseIdle(Value(), buffer);
      if phase == Headers {
        HeadPhaseLeavesLine(Value(), buffer);
        exn := FinishHeaders(buffer);
        if exn.Some? { return; }
      }
      if phase == Body {
        var message := buffer[parsedTotal..];
        if |message| >= bodyLength {
          body := message[..bodyLength];
          phase := Done;
        }
      }
    }
  }
}
