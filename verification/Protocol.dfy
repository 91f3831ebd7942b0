/** HTTP tokens, the case-insensitive field maps, and the response printer. */
module Protocol {
  import opened Text

  datatype Method = GET | POST | PUT | DELETE

  datatype Version = HTTP10 | HTTP11

  function MethodText(m: Method): string {
    match m
    case GET => "GET"
    case POST => "POST"
    case PUT => "PUT"
    case DELETE => "DELETE"
  }

  function VersionText(v: Version): string {
    match v
    case HTTP10 => "HTTP/1.0"
    case HTTP11 => "HTTP/1.1"
  }

  const BAD_REQUEST: nat := 400
  const HTTP_VERSION_NOT_SUPPORTED: nat := 505

  function ReasonPhrase(code: nat): string {
    if code < 300 then SuccessPhrase(code)
    else if code < 400 then RedirectPhrase(code)
    else if code < 500 then RequestErrorPhrase(code)
    else ServerErrorPhrase(code)
  }

  function SuccessPhrase(code: nat): string {
    match code
    case 100 => "Continue"
    case 101 => "Switching Protocols"
    case 200 => "OK"
    case 201 => "Created"
    case 202 => "Accepted"
    case 204 => "No Content"
    case 206 => "Partial Content"
    case _ => ""
  }

  function RedirectPhrase(code: nat): string {
    match code
    case 300 => "Multiple Choices"
    case 301 => "Moved Permanently"
    case 302 => "Found"
    case 303 => "See Other"
    case 305 => "User Proxy"
    case 307 => "Temporary Redirect"
    case _ => ""
  }

  function RequestErrorPhrase(code: nat): string {
    match code
    case 400 => "Bad Request"
    case 401 => "Unauthorized"
    case 402 => "Payment Required"
    case 403 => "Forbidden"
    case 404 => "Not Found"
    case 405 => "Method Not Allowed"
    case 406 => "Not Acceptable"
    case 407 => "Proxy Authentication Requried"
    case 408 => "Request Timeout"
    case 409 => "Conflict"
    case 410 => "Gone"
    case 411 => "Length Required"
    case 412 => "Precondition Failed"
    case 413 => "Request Entity Too Large"
    case 414 => "Request URI Too Large"
    case 416 => "Requested Range Not Satisfiable"
    case 417 => "Expectation Failed"
    case _ => ""
  }

  function ServerErrorPhrase(code: nat): string {
    match code
    case 500 => "Internal Server Error"
    case 501 => "Not Implemented"
    case 502 => "Bad Gateway"
    case 503 => "Service Unavailable"
    case 504 => "Gateway Time-Out"
    case 505 => "HTTP Version Not Supported"
    case _ => ""
  }

  // ---- case-insensitive maps -------------------------------------------

  function FoldChar(c: char): char {
    if 'A' <= c <= 'Z' then (c as int + 32) as char else c
  }

  /** The representative of a name under `strcasecmp`. */
  function Fold(s: string): (r: string)
    ensures |r| == |s|
    ensures forall i :: 0 <= i < |s| ==> r[i] == FoldChar(s[i])
  {
    seq(|s|, i requires 0 <= i < |s| => FoldChar(s[i]))
  }

  datatype Field = Field(name: string, value: string)

  /** Folded name to the field as it was first spelled. */
  type FieldMap = map<string, Field>

  /** `unordered_map::insert`: an equivalent key already present wins. */
  function Insert(m: FieldMap, f: Field): FieldMap {
    if Fold(f.name) in m then m else m[Fold(f.name) := f]
  }

  function InsertAll(m: FieldMap, fs: seq<Field>): FieldMap
    decreases |fs|
  {
    if fs == [] then m else InsertAll(Insert(m, fs[0]), fs[1..])
  }

  ghost predicate Names(fs: seq<Field>, k: string) {
    exists i :: 0 <= i < |fs| && Fold(fs[i].name) == k
  }

  ghost predicate IsFirst(fs: seq<Field>, i: nat) {
    i < |fs| && forall j :: 0 <= j < i ==> Fold(fs[j].name) != Fold(fs[i].name)
  }

  /** `m` is `base` extended by `fs`, the earliest field of each folded name winning. */
  ghost predicate FirstWinsOver(base: FieldMap, fs: seq<Field>, m: FieldMap) {
    && (forall k :: k in m <==> k in base || Names(fs, k))
    && (forall k :: k in base ==> k in m && m[k] == base[k])
    && (forall i :: 0 <= i < |fs| && IsFirst(fs, i) && Fold(fs[i].name) !in base ==>
                      Fold(fs[i].name) in m && m[Fold(fs[i].name)] == fs[i])
  }

  ghost predicate FirstWins(fs: seq<Field>, m: FieldMap) {
    FirstWinsOver(map[], fs, m)
  }

  lemma NamesHeadTail(fs: seq<Field>, k: string)
    requires fs != []
    ensures Names(fs, k) <==> Fold(fs[0].name) == k || Names(fs[1..], k)
  {
    var t := fs[1..];
    if Names(fs, k) {
      var i :| 0 <= i < |fs| && Fold(fs[i].name) == k;
      assert i > 0 ==> t[i - 1] == fs[i];
    }
    if Names(t, k) {
      var i :| 0 <= i < |t| && Fold(t[i].name) == k;
      assert fs[i + 1] == t[i];
    }
  }

  /** A first field of the list that the head does not shadow is a first field of the tail. */
  lemma FirstInTail(base: FieldMap, fs: seq<Field>, i: nat)
    requires 0 < i < |fs| && IsFirst(fs, i) && Fold(fs[i].name) !in base
    ensures fs[1..][i - 1] == fs[i] && IsFirst(fs[1..], i - 1)
    ensures Fold(fs[i].name) !in Insert(base, fs[0])
  {
    hide Fold;
    var t := fs[1..];
    forall j | 0 <= j < i - 1 ensures Fold(t[j].name) != Fold(t[i - 1].name) {
      assert t[j] == fs[j + 1];
    }
  }

  lemma FirstWinsHead(base: FieldMap, fs: seq<Field>, m: FieldMap)
    requires fs != [] && FirstWinsOver(Insert(base, fs[0]), fs[1..], m)
    ensures FirstWinsOver(base, fs, m)
  {
    hide Fold, Names, IsFirst;
    forall k ensures k in m <==> k in base || Names(fs, k) {
      NamesHeadTail(fs, k);
    }
    forall i | 0 <= i < |fs| && IsFirst(fs, i) && Fold(fs[i].name) !in base
      ensures Fold(fs[i].name) in m && m[Fold(fs[i].name)] == fs[i]
    {
      if i > 0 {
        FirstInTail(base, fs, i);
      } else {
        assert Fold(fs[0].name) in Insert(base, fs[0]);
      }
    }
  }

  /** Inserting one by one yields the first-wins map. */
  lemma {:induction false} InsertAllFirstWins(base: FieldMap, fs: seq<Field>)
    ensures FirstWinsOver(base, fs, InsertAll(base, fs))
    decreases |fs|
  {
    if fs != [] {
      InsertAllFirstWins(Insert(base, fs[0]), fs[1..]);
      FirstWinsHead(base, fs, InsertAll(base, fs));
    }
  }

  lemma FirstIndex(fs: seq<Field>, k: string) returns (i: nat)
    requires Names(fs, k)
    ensures IsFirst(fs, i) && Fold(fs[i].name) == k
  {
    i := 0;
    while Fold(fs[i].name) != k
      invariant i < |fs|
      invariant forall j :: 0 <= j < i ==> Fold(fs[j].name) != k
      decreases |fs| - i
    {
      i := i + 1;
    }
  }

  /** The first-wins description leaves no freedom. */
  lemma FirstWinsUnique(fs: seq<Field>, m: FieldMap, m': FieldMap)
    requires FirstWins(fs, m) && FirstWins(fs, m')
    ensures m == m'
  {
    forall k | k in m ensures m[k] == m'[k] {
      var i := FirstIndex(fs, k);
    }
  }

  // ---- names under any spelling ---------------------------------------------

  /** Equal, or an ASCII letter and its capital, 32 apart. */
  predicate SameLetter(a: char, b: char) {
    || a == b
    || ('A' <= a <= 'Z' && b as int == a as int + 32)
    || ('A' <= b <= 'Z' && a as int == b as int + 32)
  }

  /** `strcasecmp` finds no difference. */
  predicate SameName(a: string, b: string) {
    |a| == |b| && forall i :: 0 <= i < |a| ==> SameLetter(a[i], b[i])
  }

  /** Names are keys of the same entry exactly when they differ in letter case only. */
  lemma FoldSame(a: string, b: string)
    ensures Fold(a) == Fold(b) <==> SameName(a, b)
  {
    if Fold(a) == Fold(b) {
      assert |a| == |b|;
      forall i | 0 <= i < |a| ensures SameLetter(a[i], b[i]) {
        assert Fold(a)[i] == Fold(b)[i];
      }
    }
  }

  function Lookup(m: FieldMap, name: string): Option<Field> {
    if Fold(name) in m then Some(m[Fold(name)]) else None
  }

  /** The first field with this name, however it is spelled. */
  function FirstNamed(fs: seq<Field>, name: string): Option<Field> {
    if fs == [] then None
    else if SameName(fs[0].name, name) then Some(fs[0])
    else FirstNamed(fs[1..], name)
  }

  /** A field is found under every spelling of its name, the earliest one winning. */
  lemma {:induction false} FoundUnderAnySpelling(base: FieldMap, fs: seq<Field>, name: string)
    ensures Lookup(InsertAll(base, fs), name)
            == if Lookup(base, name).Some? then Lookup(base, name) else FirstNamed(fs, name)
    decreases |fs|
  {
    hide Fold, SameName;
    if fs != [] {
      FoldSame(fs[0].name, name);
      FoundUnderAnySpelling(Insert(base, fs[0]), fs[1..], name);
    }
  }

  // ---- responses ---------------------------------------------------------

  datatype Response = Response(version: Version, code: nat, headers: seq<Field>, body: string)

  /** `HttpResponse()`: value initialisation zeroes version and code. */
  const DEFAULT_RESPONSE := Response(HTTP10, 0, [], "")

  function WithHeader(r: Response, f: Field): Response {
    r.(headers := r.headers + [f])
  }

  function ContentLength(body: string): Field {
    Field("Content-Length", ToDecimal(|body|))
  }

  function WithBody(r: Response, body: string): Response {
    r.(headers := r.headers + [ContentLength(body)], body := body)
  }

  function HeaderLine(f: Field): string {
    f.name + ":" + f.value + CRLF
  }

  function HeaderLines(fs: seq<Field>): string {
    if fs == [] then "" else HeaderLine(fs[0]) + HeaderLines(fs[1..])
  }

  function StatusLine(r: Response): string {
    VersionText(r.version) + " " + ToDecimal(r.code) + " " + ReasonPhrase(r.code) + CRLF
  }

  function DumpText(r: Response): (s: string)
    ensures |s| > 0
  {
    StatusLine(r) + HeaderLines(r.headers) + CRLF + r.body
  }

  class HttpResponse {
    var version: Version
    var code: nat
    var headers: seq<Field>
    var body: string

    function Value(): Response
      reads this
    {
      Response(version, code, headers, body)
    }

    constructor ()
      ensures Value() == DEFAULT_RESPONSE
    {
      version, code, headers, body := HTTP10, 0, [], "";
    }

    method AddHeader(key: string, value: string)
      modifies this`headers
      ensures Value() == WithHeader(old(Value()), Field(key, value))
      ensures headers == old(headers) + [Field(key, value)]
    {
      headers := headers + [Field(key, value)];
    }

    method SetBody(text: string)
      modifies this`body, this`headers
      ensures Value() == WithBody(old(Value()), text)
      ensures body == text && headers == old(headers) + [Field("Content-Length", ToDecimal(|text|))]
    {
      body := text;
      headers := headers + [Field("Content-Length", ToDecimal(|body|))];
    }

    /** Prints the headers one by one into the stream. */
    method Dump() returns (out: string)
      ensures out == DumpText(Value())
    {
      out := VersionText(version) + " " + ToDecimal(code) + " " + ReasonPhrase(code) + CRLF;
      ghost var status := out;
      var i := 0;
      while i < |headers|
        invariant 0 <= i <= |headers|
        invariant out + HeaderLines(headers[i..]) == status + HeaderLines(headers)
      {
        assert headers[i..][1..] == headers[i + 1..];
        out := out + headers[i].name + ":" + headers[i].value + CRLF;
        i := i + 1;
      }
      out := out + CRLF + body;
    }
  }
}
