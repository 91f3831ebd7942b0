/** Searching and splitting of character views, as `std::string_view` does it.
    One `char` stands for one byte. */
module Text {
  datatype Option<+T> = None | Some(value: T)

  const CRLF: string := "\r\n"

  predicate MatchAt(s: string, p: string, i: nat) {
    i + |p| <= |s| && s[i..i + |p|] == p
  }

  predicate FirstMatch(s: string, p: string, i: nat) {
    MatchAt(s, p, i) && forall j :: 0 <= j < i ==> !MatchAt(s, p, j)
  }

  lemma FirstMatchBefore(s: string, p: string, j: nat)
    requires MatchAt(s, p, j)
    ensures exists i: nat :: i <= |s| && FirstMatch(s, p, i)
  {
    if !FirstMatch(s, p, j) {
      var k :| 0 <= k < j && MatchAt(s, p, k);
      FirstMatchBefore(s, p, k);
    }
  }

  lemma FirstMatchExists(s: string, p: string)
    ensures (forall i: nat :: i <= |s| ==> !FirstMatch(s, p, i)) ==> forall j: nat :: !MatchAt(s, p, j)
  {
    forall j: nat | MatchAt(s, p, j) ensures exists i: nat :: i <= |s| && FirstMatch(s, p, i) {
      FirstMatchBefore(s, p, j);
    }
  }

  /** `view.find(p)`, with `None` for `npos`. */
  function Find(s: string, p: string): (r: Option<nat>)
    ensures r.Some? ==> MatchAt(s, p, r.value)
    ensures r.Some? ==> forall j :: 0 <= j < r.value ==> !MatchAt(s, p, j)
    ensures r.None? ==> forall j: nat :: !MatchAt(s, p, j)
  {
    FirstMatchExists(s, p);
    if exists i: nat :: i <= |s| && FirstMatch(s, p, i) then
      var i: nat :| i <= |s| && FirstMatch(s, p, i);
      Some(i)
    else None
  }

  lemma FindBound(s: string, p: string)
    requires Find(s, p).Some?
    ensures Find(s, p).value + |p| <= |s|
  {
    assert MatchAt(s, p, Find(s, p).value);
  }

  /** A find is determined by its first match. */
  lemma FindIs(s: string, p: string, i: nat)
    requires MatchAt(s, p, i)
    requires forall j :: 0 <= j < i ==> !MatchAt(s, p, j)
    ensures Find(s, p) == Some(i)
  {
    var r := Find(s, p);
    assert r.Some?;
  }

  /** A successful find is not changed by bytes that arrive later. */
  lemma FindExtends(s: string, t: string, p: string)
    requires s <= t && Find(s, p).Some?
    ensures Find(t, p) == Find(s, p)
  {
    var i := Find(s, p).value;
    assert t[i..i + |p|] == s[i..i + |p|];
    forall j | 0 <= j < i ensures !MatchAt(t, p, j) {
      assert !MatchAt(s, p, j);
      assert t[j..j + |p|] == s[j..j + |p|];
    }
    FindIs(t, p, i);
  }

  /** Skipping a part in which no match starts shifts the result. */
  lemma FindSkips(a: string, b: string, p: string)
    requires forall j :: 0 <= j < |a| ==> !MatchAt(a + b, p, j)
    ensures Find(b, p).Some? ==> Find(a + b, p) == Some(|a| + Find(b, p).value)
    ensures Find(b, p).None? ==> Find(a + b, p).None?
  {
    forall j | |a| <= j ensures MatchAt(a + b, p, j) <==> MatchAt(b, p, j - |a|) {
      if j + |p| <= |a + b| {
        assert (a + b)[j..j + |p|] == b[j - |a|..j - |a| + |p|];
      }
    }
    if Find(b, p).Some? {
      var i := |a| + Find(b, p).value;
      forall j | 0 <= j < i ensures !MatchAt(a + b, p, j) {
        if |a| <= j {
          assert !MatchAt(b, p, j - |a|);
        }
      }
      FindIs(a + b, p, i);
    }
  }

  /** No match of `p` starts at a position that does not hold its first byte. */
  lemma NoMatchWithoutFirst(s: string, p: string, j: nat)
    requires |p| > 0 && j < |s| && s[j] != p[0]
    ensures !MatchAt(s, p, j)
  {
    assert j + |p| <= |s| ==> s[j..j + |p|][0] == s[j];
  }

  /** A delimiter placed after text free of its first byte is found right there. */
  lemma FindAfter(a: string, p: string, b: string)
    requires |p| > 0 && p[0] !in a
    ensures Find(a + p + b, p) == Some(|a|)
  {
    var s := a + p + b;
    assert s[|a|..|a| + |p|] == p;
    forall j | 0 <= j < |a| ensures !MatchAt(s, p, j) {
      assert s[j] == a[j];
      NoMatchWithoutFirst(s, p, j);
    }
    FindIs(s, p, |a|);
  }

  /** Text free of a delimiter's first byte has no match at all. */
  lemma FindNothing(a: string, p: string)
    requires |p| > 0 && p[0] !in a
    ensures Find(a, p).None?
  {
    forall j | 0 <= j < |a| ensures !MatchAt(a, p, j) {
      NoMatchWithoutFirst(a, p, j);
    }
  }

  function Concat(parts: seq<string>): (s: string)
  {
    if parts == [] then "" else Concat(parts[..|parts| - 1]) + parts[|parts| - 1]
  }

  lemma ConcatAppend(parts: seq<string>, last: string)
    ensures Concat(parts + [last]) == Concat(parts) + last
  {
    assert (parts + [last])[..|parts|] == parts;
  }

  /** Fresh bytes of a resized buffer. */
  function Zeros(n: nat): (s: string)
    ensures |s| == n
  {
    seq(n, i => '\0')
  }

  lemma HasMember(s: set<int>)
    requires s != {}
    ensures exists x :: x in s
  {
    assert (forall x :: x !in s) ==> s == {};
  }

  // ---- decimal numbers -------------------------------------------------

  const ULLONG_MAX: nat := 0xFFFF_FFFF_FFFF_FFFF

  predicate IsDigit(c: char) { '0' <= c <= '9' }

  predicate IsSpace(c: char) { c == ' ' || 9 <= c as int <= 13 }

  function Digit(d: nat): (c: char)
    requires d < 10
    ensures IsDigit(c)
  {
    ('0' as int + d) as char
  }

  /** `std::to_string` of an unsigned number. */
  function ToDecimal(n: nat): (s: string)
    ensures |s| > 0
    ensures forall i :: 0 <= i < |s| ==> IsDigit(s[i])
  {
    if n < 10 then [Digit(n)] else ToDecimal(n / 10) + [Digit(n % 10)]
  }

  function DecimalValue(s: string): (n: nat)
    requires forall i :: 0 <= i < |s| ==> IsDigit(s[i])
  {
    if s == "" then 0
    else
      assert IsDigit(s[|s| - 1]);
      10 * DecimalValue(s[..|s| - 1]) + (s[|s| - 1] as int - '0' as int)
  }

  lemma {:induction false} DecimalRoundTrip(n: nat)
    ensures DecimalValue(ToDecimal(n)) == n
  {
    var s := ToDecimal(n);
    if n < 10 {
      assert s[..0] == "";
    } else {
      DecimalRoundTrip(n / 10);
      assert s[..|s| - 1] == ToDecimal(n / 10);
    }
  }

  /** How many leading digits a text has. */
  function DigitRun(s: string): (k: nat)
    ensures k <= |s|
    ensures forall i :: 0 <= i < k ==> IsDigit(s[i])
    ensures k < |s| ==> !IsDigit(s[k])
  {
    if s == "" || !IsDigit(s[0]) then 0 else 1 + DigitRun(s[1..])
  }

  function SkipSpaces(s: string): (r: string)
    ensures |r| <= |s|
    ensures r != "" ==> !IsSpace(r[0])
  {
    if s != "" && IsSpace(s[0]) then SkipSpaces(s[1..]) else s
  }

  datatype Number = Number(value: nat) | NotANumber | TooLarge

  /** `std::stoull` in base ten: leading spaces, an optional sign, the longest run
      of digits; anything after it is ignored. A minus sign negates modulo 2^64. */
  function Stoull(s: string): (r: Number)
    ensures r.Number? ==> r.value <= ULLONG_MAX
  {
    var t := SkipSpaces(s);
    var negative := t != "" && t[0] == '-';
    var digits := if t != "" && (t[0] == '-' || t[0] == '+') then t[1..] else t;
    var k := DigitRun(digits);
    if k == 0 then NotANumber
    else
      var v := DecimalValue(digits[..k]);
      if v > ULLONG_MAX then TooLarge
      else Number(if negative && v != 0 then ULLONG_MAX + 1 - v else v)
  }

  lemma StoullOfDecimal(n: nat)
    requires n <= ULLONG_MAX
    ensures Stoull(ToDecimal(n)) == Number(n)
  {
    var s := ToDecimal(n);
    assert IsDigit(s[0]);
    assert DigitRun(s) == |s|;
    assert s[..|s|] == s;
    DecimalRoundTrip(n);
  }

  // ---- what stoull reads, on every text ------------------------------------

  predicate AllDigits(s: string) {
    forall i :: 0 <= i < |s| ==> IsDigit(s[i])
  }

  /** Blanks, an optional sign, a full run of digits, and anything after it. The blanks are
      those of the C locale: tab, the line and page breaks, space. */
  predicate Numeral(s: string, blanks: string, sign: string, digits: string, rest: string) {
    && s == blanks + (sign + (digits + rest))
    && (forall i :: 0 <= i < |blanks| ==> blanks[i] as int in {9, 10, 11, 12, 13, 32})
    && sign in {"", "+", "-"}
    && digits != "" && AllDigits(digits) && (rest != "" ==> !IsDigit(rest[0]))
  }

  lemma {:induction false} SkipsBlanks(blanks: string, t: string)
    requires forall i :: 0 <= i < |blanks| ==> blanks[i] as int in {9, 10, 11, 12, 13, 32}
    requires t != "" && !IsSpace(t[0])
    ensures SkipSpaces(blanks + t) == t
  {
    if blanks == "" {
      assert blanks + t == t;
    } else {
      assert (blanks + t)[1..] == blanks[1..] + t;
      assert (blanks + t)[0] == blanks[0] && IsSpace(blanks[0]);
      SkipsBlanks(blanks[1..], t);
    }
  }

  lemma {:induction false} RunsOverDigits(digits: string, rest: string)
    requires AllDigits(digits) && (rest != "" ==> !IsDigit(rest[0]))
    ensures DigitRun(digits + rest) == |digits|
  {
    if digits == "" {
      assert digits + rest == rest;
    } else {
      assert (digits + rest)[1..] == digits[1..] + rest;
      assert (digits + rest)[0] == digits[0];
      RunsOverDigits(digits[1..], rest);
    }
  }

  lemma StoullReads(s: string, blanks: string, sign: string, digits: string, rest: string)
    requires Numeral(s, blanks, sign, digits, rest)
    ensures Stoull(s)
            == var v := DecimalValue(digits);
               if v > ULLONG_MAX then TooLarge
               else Number(if sign == "-" && v > 0 then ULLONG_MAX + 1 - v else v)
  {
    hide DecimalValue;
    var after := digits + rest;
    var t := sign + after;
    assert IsDigit(digits[0]);
    assert t[0] == if sign == "" then digits[0] else sign[0];
    SkipsBlanks(blanks, t);
    assert sign != "" ==> t[1..] == after;
    assert sign == "" ==> t == after;
    RunsOverDigits(digits, rest);
    assert after[..|digits|] == digits;
  }

  lemma {:induction false} SkippedBlanks(s: string) returns (blanks: string)
    ensures s == blanks + SkipSpaces(s)
    ensures forall i :: 0 <= i < |blanks| ==> blanks[i] as int in {9, 10, 11, 12, 13, 32}
  {
    if s != "" && IsSpace(s[0]) {
      var more := SkippedBlanks(s[1..]);
      blanks := [s[0]] + more;
    } else {
      blanks := "";
    }
  }

  /** The sign `stoull` sees after the blanks. */
  function SignOf(t: string): (sign: string)
    ensures sign <= t
  {
    if t != "" && (t[0] == '-' || t[0] == '+') then t[..1] else ""
  }

  lemma SignIs(t: string)
    ensures SignOf(t) in {"", "+", "-"}
  {
    if t != "" {
      assert t[..1] == [t[0]];
    }
  }

  lemma DigitsAfterSign(s: string)
    ensures var t := SkipSpaces(s);
            Stoull(s) != NotANumber <==> DigitRun(t[|SignOf(t)|..]) > 0
  {
    hide DecimalValue;
    var t := SkipSpaces(s);
    assert t[0..] == t;
  }

  /** `stoull` reads a number, or one that is too large, exactly in the texts that are
      numerals. */
  lemma StoullExactly(s: string)
    ensures Stoull(s) != NotANumber <==>
            exists blanks, sign, digits, rest :: Numeral(s, blanks, sign, digits, rest)
  {
    hide Stoull, Numeral, DecimalValue;
    if Stoull(s) != NotANumber {
      var blanks, sign, digits, rest := NumeralParts(s);
    }
    if blanks, sign, digits, rest :| Numeral(s, blanks, sign, digits, rest) {
      StoullReads(s, blanks, sign, digits, rest);
    }
  }

  lemma NumeralParts(s: string) returns (blanks: string, sign: string, digits: string, rest: string)
    requires Stoull(s) != NotANumber
    ensures Numeral(s, blanks, sign, digits, rest)
  {
    hide Stoull, Numeral, SignOf, SkipSpaces, DigitRun;
    DigitsAfterSign(s);
    blanks := SkippedBlanks(s);
    var t := SkipSpaces(s);
    SignIs(t);
    sign := SignOf(t);
    var after := t[|sign|..];
    var k := DigitRun(after);
    assert t == sign + after;
    digits, rest := after[..k], after[k..];
    Composed(blanks, sign, after, k);
  }

  lemma Composed(blanks: string, sign: string, after: string, k: nat)
    requires forall i :: 0 <= i < |blanks| ==> blanks[i] as int in {9, 10, 11, 12, 13, 32}
    requires sign in {"", "+", "-"} && k == DigitRun(after) && k > 0
    ensures Numeral(blanks + (sign + after), blanks, sign, after[..k], after[k..])
  {
    assert after == after[..k] + after[k..];
    assert after[k..] != "" ==> after[k..][0] == after[k];
  }

  lemma {:induction false} DecimalValueAppend(a: string, d: char)
    requires AllDigits(a) && IsDigit(d)
    ensures DecimalValue(a + [d]) == 10 * DecimalValue(a) + (d as int - '0' as int)
  {
    assert (a + [d])[..|a|] == a;
  }

  /** Every run of digits is the usual decimal form of its value, after some zeros. */
  lemma {:induction false} EveryDecimal(digits: string) returns (zeros: string)
    requires digits != "" && AllDigits(digits)
    ensures forall i :: 0 <= i < |zeros| ==> zeros[i] == '0'
    ensures digits == zeros + ToDecimal(DecimalValue(digits))
    decreases |digits|
  {
    var n := |digits| - 1;
    var d := digits[n];
    assert IsDigit(d);
    DecimalValueAppend(digits[..n], d);
    assert digits == digits[..n] + [d];
    if n == 0 {
      zeros := "";
    } else {
      zeros := EveryDecimal(digits[..n]);
      if DecimalValue(digits[..n]) == 0 {
        assert ToDecimal(0) == "0";
        zeros := zeros + "0";
      }
    }
  }
}
