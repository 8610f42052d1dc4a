/** The JavaScript string behaviour the launcher relies on: `a || b` on
    possibly-undefined strings, split(","), trim(), the digit runs that
    /\d+/g matches, and the decimal form a number takes in a template
    string. */
module JsStrings {
  import opened Options
  import opened JsArrays

  /** A string is truthy in JavaScript when it is defined and not "". */
  predicate Truthy(o: Option<string>) {
    o.Some? && o.value != ""
  }

  /** `o || fallback` for a property that holds a string or is undefined. */
  function Or(o: Option<string>, fallback: string): (r: string)
    ensures Truthy(o) ==> r == o.value
    ensures !Truthy(o) ==> r == fallback
  {
    if Truthy(o) then o.value else fallback
  }

  // ---------------------------------------------------------------------
  // split(",") and its inverse, join(",")

  /** The pieces of s between commas, as String.prototype.split(",")
      returns them ("" splits into [""]). */
  function Split(s: string): (parts: seq<string>)
    ensures |parts| >= 1
    ensures forall i :: 0 <= i < |parts| ==> ',' !in parts[i]
    decreases |s|
  {
    var i := IndexOf(s, ',');
    if i < 0 then [s] else [s[..i]] + Split(s[i + 1..])
  }

  /** Array.prototype.join(","). */
  function Join(parts: seq<string>): string
    decreases |parts|
  {
    if parts == [] then ""
    else if |parts| == 1 then parts[0]
    else parts[0] + "," + Join(parts[1..])
  }

  /** Splitting on "," and joining with "," gives the string back. */
  lemma {:induction false} JoinSplit(s: string)
    ensures Join(Split(s)) == s
    decreases |s|
  {
    var i := IndexOf(s, ',');
    if i >= 0 {
      var head, tail := s[..i], s[i + 1..];
      var rest := Split(tail);
      assert Split(s) == [head] + rest;
      JoinCons(head, rest);
      JoinSplit(tail);
      assert Join(Split(s)) == head + "," + tail;
      Around(s, i);
    }
  }

  /** A piece joined in front of at least one more comes first, then a
      comma. */
  lemma JoinCons(piece: string, rest: seq<string>)
    requires |rest| >= 1
    ensures Join([piece] + rest) == piece + "," + Join(rest)
  {
    assert ([piece] + rest)[1..] == rest;
  }

  /** Joining comma-free pieces and splitting again gives the pieces back. */
  lemma {:induction false} SplitJoin(parts: seq<string>)
    requires |parts| >= 1
    requires forall i :: 0 <= i < |parts| ==> ',' !in parts[i]
    ensures Split(Join(parts)) == parts
    decreases |parts|
  {
    if |parts| > 1 {
      var rest := Join(parts[1..]);
      assert Join(parts) == parts[0] + "," + rest;
      SplitCons(parts[0], rest);
      SplitJoin(parts[1..]);
      assert parts == [parts[0]] + parts[1..];
    } else {
      assert IndexOf(parts[0], ',') == -1;
    }
  }

  /** A comma-free piece followed by a comma splits off first. */
  lemma SplitCons(piece: string, rest: string)
    requires ',' !in piece
    ensures Split(piece + "," + rest) == [piece] + Split(rest)
  {
    var s := piece + "," + rest;
    var i := |piece|;
    assert s[..i] == piece;
    IndexOfAt(s, ',', i);
    assert s[i + 1..] == rest;
  }

  // ---------------------------------------------------------------------
  // trim()

  /** The white space and line terminators String.prototype.trim removes. */
  predicate IsJsWhitespace(c: char) {
    var n := c as int;
    n == 0x09 || n == 0x0A || n == 0x0B || n == 0x0C || n == 0x0D || n == 0x20
    || n == 0xA0 || n == 0x1680 || (0x2000 <= n <= 0x200A)
    || n == 0x2028 || n == 0x2029 || n == 0x202F || n == 0x205F
    || n == 0x3000 || n == 0xFEFF
  }

  function TrimStart(s: string): (r: string)
    decreases |s|
  {
    if s != [] && IsJsWhitespace(s[0]) then TrimStart(s[1..]) else s
  }

  function TrimEnd(s: string): (r: string)
    decreases |s|
  {
    if s != [] && IsJsWhitespace(s[|s| - 1]) then TrimEnd(s[..|s| - 1]) else s
  }

  /** String.prototype.trim. */
  function Trim(s: string): string {
    TrimEnd(TrimStart(s))
  }

  /** trimStart drops white space at the front, and only that. */
  lemma {:induction false} TrimStartFacts(s: string)
    ensures |TrimStart(s)| <= |s| && TrimStart(s) == s[|s| - |TrimStart(s)|..]
    ensures TrimStart(s) == [] || !IsJsWhitespace(TrimStart(s)[0])
    ensures forall i :: 0 <= i < |s| - |TrimStart(s)| ==> IsJsWhitespace(s[i])
    decreases |s|
  {
    if s != [] && IsJsWhitespace(s[0]) {
      TrimStartFacts(s[1..]);
      assert s[1..][|s[1..]| - |TrimStart(s[1..])|..] == s[|s| - |TrimStart(s)|..];
      forall i | 0 < i < |s| - |TrimStart(s)| ensures IsJsWhitespace(s[i]) {
        assert s[i] == s[1..][i - 1];
      }
    }
  }

  /** trimEnd drops white space at the back, and only that. */
  lemma {:induction false} TrimEndFacts(s: string)
    ensures |TrimEnd(s)| <= |s| && TrimEnd(s) == s[..|TrimEnd(s)|]
    ensures TrimEnd(s) == [] || !IsJsWhitespace(TrimEnd(s)[|TrimEnd(s)| - 1])
    ensures forall i :: |TrimEnd(s)| <= i < |s| ==> IsJsWhitespace(s[i])
    decreases |s|
  {
    if s != [] && IsJsWhitespace(s[|s| - 1]) {
      var t := s[..|s| - 1];
      TrimEndFacts(t);
      assert t[..|TrimEnd(t)|] == s[..|TrimEnd(s)|];
      forall i | |TrimEnd(s)| <= i < |s| - 1 ensures IsJsWhitespace(s[i]) {
        assert s[i] == t[i];
      }
    }
  }

  /** A trimmed string begins and ends with something other than white
      space, and is what lies between white space cut from either end. */
  lemma TrimFacts(s: string)
    ensures Trim(s) == [] || (!IsJsWhitespace(Trim(s)[0]) && !IsJsWhitespace(Trim(s)[|Trim(s)| - 1]))
    ensures exists a, b :: 0 <= a <= b <= |s| && Trim(s) == s[a..b]
  {
    var t := TrimStart(s);
    TrimStartFacts(s);
    TrimEndFacts(t);
    var r := Trim(s);
    assert r != [] ==> r[0] == t[0];
    var a := |s| - |t|;
    assert r == s[a..a + |r|];
  }

  /** Trimming a trimmed string changes nothing. */
  lemma TrimIdempotent(s: string)
    ensures Trim(Trim(s)) == Trim(s)
  {
    var r := Trim(s);
    TrimFacts(s);
    assert TrimStart(r) == r;
    assert TrimEnd(r) == r;
  }

  // ---------------------------------------------------------------------
  // Digit runs (/\d+/g) and decimal numerals

  /** \d in a JavaScript regular expression without the u flag. */
  predicate IsDigit(c: char) {
    '0' <= c <= '9'
  }

  predicate AllDigits(s: string) {
    forall i :: 0 <= i < |s| ==> IsDigit(s[i])
  }

  /** The length of the longest prefix of s made of digits. */
  function LeadingDigits(s: string): (n: nat)
    ensures n <= |s|
    ensures AllDigits(s[..n])
    ensures n < |s| ==> !IsDigit(s[n])
    decreases |s|
  {
    if s != [] && IsDigit(s[0]) then
      var m := LeadingDigits(s[1..]);
      assert s[..m + 1] == [s[0]] + s[1..][..m];
      m + 1
    else 0
  }

  /** The value of a numeral (leading zeros allowed, as Number("007") is 7). */
  function DigitsValue(s: string): nat
    requires AllDigits(s)
    decreases |s|
  {
    if s == [] then 0
    else DigitsValue(s[..|s| - 1]) * 10 + (s[|s| - 1] as int - '0' as int)
  }

  /** The numbers that s.match(/\d+/g) finds in s, left to right. */
  function DigitRuns(s: string): seq<nat>
    decreases |s|
  {
    if s == [] then []
    else if !IsDigit(s[0]) then DigitRuns(s[1..])
    else
      var k := LeadingDigits(s);
      [DigitsValue(s[..k])] + DigitRuns(s[k..])
  }

  /** The decimal numeral of n, as a template string prints a whole number. */
  function Decimal(n: nat): (r: string)
    ensures r != [] && AllDigits(r)
  {
    if n < 10 then ['0' + n as char]
    else Decimal(n / 10) + ['0' + (n % 10) as char]
  }

  /** Reading the numeral of n gives n back. */
  lemma {:induction false} DecimalValue(n: nat)
    ensures DigitsValue(Decimal(n)) == n
  {
    if n >= 10 {
      DecimalValue(n / 10);
      var r := Decimal(n);
      assert r[..|r| - 1] == Decimal(n / 10);
    }
  }

  /** A numeral on its own is one digit run. */
  lemma DigitRunsOfNumeral(d: string)
    requires d != [] && AllDigits(d)
    ensures DigitRuns(d) == [DigitsValue(d)]
  {
    var k := LeadingDigits(d);
    assert k == |d|;
    assert d[..k] == d && d[k..] == [];
  }

  /** A digit-free prefix adds no digit runs. */
  lemma {:induction false} DigitRunsAfterText(p: string, t: string)
    requires forall i :: 0 <= i < |p| ==> !IsDigit(p[i])
    ensures DigitRuns(p + t) == DigitRuns(t)
    decreases |p|
  {
    if p != [] {
      assert (p + t)[0] == p[0] && !IsDigit(p[0]);
      assert (p + t)[1..] == p[1..] + t;
      assert forall i :: 0 <= i < |p[1..]| ==> !IsDigit(p[1..][i]) by {
        forall i | 0 <= i < |p[1..]| ensures !IsDigit(p[1..][i]) {
          assert p[1..][i] == p[i + 1];
        }
      }
      DigitRunsAfterText(p[1..], t);
      assert DigitRuns(p + t) == DigitRuns((p + t)[1..]);
    } else {
      assert p + t == t;
    }
  }

  /** A string without digits has no digit runs. */
  lemma DigitRunsOfText(p: string)
    requires forall i :: 0 <= i < |p| ==> !IsDigit(p[i])
    ensures DigitRuns(p) == []
  {
    DigitRunsAfterText(p, "");
    assert p + "" == p;
  }
}
