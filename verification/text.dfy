/**
 * The JavaScript string operations the frontend relies on, over strings as
 * sequences of Unicode scalar values: truthiness, `toLowerCase` (ASCII part only),
 * `includes`, `trim` and the decimal rendering of a non-negative integer.
 */
module Text {
  import opened Optional

  /** JavaScript truthiness of a `string | null` value: present and non-empty. */
  predicate Truthy(v: Option<string>) {
    v.Some? && v.value != ""
  }

  // ---------------------------------------------------------------- case

  /** `toLowerCase` on one character, restricted to the ASCII letters. */
  function LowerChar(c: char): char {
    if 'A' <= c <= 'Z' then (c as int + 32) as char else c
  }

  /** An upper-case ASCII letter. */
  predicate IsUpperAscii(c: char) {
    'A' <= c <= 'Z'
  }

  /**
   * `toLowerCase`: same length, every upper-case ASCII letter moved 32 code
   * points down to its lower-case partner, every other character kept, and no
   * upper-case ASCII letter left.
   */
  function Lower(s: string): (r: string)
    ensures |r| == |s|
    ensures forall i :: 0 <= i < |s| && IsUpperAscii(s[i]) ==> r[i] as int == s[i] as int + 32
    ensures forall i :: 0 <= i < |s| && !IsUpperAscii(s[i]) ==> r[i] == s[i]
    ensures forall i :: 0 <= i < |r| ==> !IsUpperAscii(r[i])
  {
    seq(|s|, i requires 0 <= i < |s| => LowerChar(s[i]))
  }

  /** Two strings that differ only in the case of their letters. */
  predicate EqualIgnoringCase(a: string, b: string) {
    |a| == |b| && forall i :: 0 <= i < |a| ==> LowerChar(a[i]) == LowerChar(b[i])
  }

  lemma LowerRespectsCase(a: string, b: string)
    requires EqualIgnoringCase(a, b)
    ensures Lower(a) == Lower(b)
  {
    assert forall i :: 0 <= i < |a| ==> Lower(a)[i] == Lower(b)[i];
  }

  // ---------------------------------------------------------- substrings

  /** `needle` sits in `hay` starting at position `i`. */
  predicate OccursAt(needle: string, hay: string, i: int) {
    0 <= i && i + |needle| <= |hay| && hay[i..i + |needle|] == needle
  }

  /** Reference meaning of `hay.includes(needle)`. */
  ghost predicate Occurs(needle: string, hay: string) {
    exists i :: OccursAt(needle, hay, i)
  }

  lemma EmptyOccursEverywhere(hay: string)
    ensures Occurs("", hay)
  {
    assert OccursAt("", hay, 0);
  }

  /** Dropping a first character that does not start an occurrence keeps the answer. */
  lemma OccursInTail(needle: string, hay: string)
    requires |hay| > 0 && !(needle <= hay)
    ensures Occurs(needle, hay) <==> Occurs(needle, hay[1..])
  {
    assert OccursAt(needle, hay, 0) ==> needle <= hay;
    if Occurs(needle, hay) {
      var i :| OccursAt(needle, hay, i);
      assert i > 0;
      assert hay[1..][i - 1..i - 1 + |needle|] == hay[i..i + |needle|];
      assert OccursAt(needle, hay[1..], i - 1);
    }
    if Occurs(needle, hay[1..]) {
      var j :| OccursAt(needle, hay[1..], j);
      assert hay[1..][j..j + |needle|] == hay[j + 1..j + 1 + |needle|];
      assert OccursAt(needle, hay, j + 1);
    }
  }

  /** `hay.includes(needle)`: a left-to-right scan for a matching prefix. */
  function Includes(hay: string, needle: string): (r: bool)
    ensures r <==> Occurs(needle, hay)
    decreases |hay|
  {
    if needle <= hay then
      assert OccursAt(needle, hay, 0);
      true
    else if |hay| == 0 then
      false
    else
      OccursInTail(needle, hay);
      Includes(hay[1..], needle)
  }

  // ---------------------------------------------------------- whitespace

  /** The WhiteSpace and LineTerminator code points that `String.prototype.trim` removes. */
  predicate IsJsWhitespace(c: char) {
    || c == '\t' || c == '\n' || c == '\U{000B}' || c == '\U{000C}' || c == '\r'
    || c == ' ' || c == '\U{00A0}' || c == '\U{1680}'
    || ('\U{2000}' <= c <= '\U{200A}')
    || c == '\U{2028}' || c == '\U{2029}' || c == '\U{202F}' || c == '\U{205F}'
    || c == '\U{3000}' || c == '\U{FEFF}'
  }

  predicate AllWhitespace(s: string) {
    forall i :: 0 <= i < |s| ==> IsJsWhitespace(s[i])
  }

  function TrimStart(s: string): (r: string)
    ensures |r| <= |s| && r == s[|s| - |r|..]
    ensures AllWhitespace(s[..|s| - |r|])
    ensures r != [] ==> !IsJsWhitespace(r[0])
    decreases |s|
  {
    if s != [] && IsJsWhitespace(s[0]) then
      var r := TrimStart(s[1..]);
      assert s[1..][..|s| - 1 - |r|] == s[1..|s| - |r|];
      assert forall i :: 1 <= i < |s| - |r| ==> s[i] == s[1..|s| - |r|][i - 1];
      r
    else
      s
  }

  function TrimEnd(s: string): (r: string)
    ensures |r| <= |s| && r == s[..|r|]
    ensures AllWhitespace(s[|r|..])
    ensures r != [] ==> !IsJsWhitespace(r[|r| - 1])
    decreases |s|
  {
    if s != [] && IsJsWhitespace(s[|s| - 1]) then
      var r := TrimEnd(s[..|s| - 1]);
      assert s[..|s| - 1][|r|..] == s[|r|..|s| - 1];
      assert forall i :: |r| <= i < |s| - 1 ==> s[i] == s[|r|..|s| - 1][i - |r|];
      r
    else
      s
  }

  /** `r` is what remains of `s` once `k` leading and some trailing whitespace characters are cut. */
  ghost predicate TrimmedAt(s: string, r: string, k: int) {
    && 0 <= k && k + |r| <= |s|
    && r == s[k..k + |r|]
    && AllWhitespace(s[..k])
    && AllWhitespace(s[k + |r|..])
  }

  /** Cutting leading whitespace to get `t`, then trailing whitespace to get `r`, trims `s`. */
  lemma TrimmedInTwoCuts(s: string, t: string, r: string)
    requires |t| <= |s| && t == s[|s| - |t|..] && AllWhitespace(s[..|s| - |t|])
    requires |r| <= |t| && r == t[..|r|] && AllWhitespace(t[|r|..])
    requires t != [] ==> !IsJsWhitespace(t[0])
    requires r != [] ==> !IsJsWhitespace(r[|r| - 1])
    ensures exists k :: TrimmedAt(s, r, k)
    ensures r != [] ==> !IsJsWhitespace(r[0]) && !IsJsWhitespace(r[|r| - 1])
    ensures r == [] <==> AllWhitespace(s)
  {
    var k := |s| - |t|;
    assert s[k..k + |r|] == t[..|r|];
    assert s[k + |r|..] == t[|r|..];
    assert TrimmedAt(s, r, k);
    if r != [] {
      assert s[k + |r| - 1] == r[|r| - 1];
    }
  }

  /** `s.trim()`. */
  function Trim(s: string): (r: string)
    ensures exists k :: TrimmedAt(s, r, k)
    ensures r != [] ==> !IsJsWhitespace(r[0]) && !IsJsWhitespace(r[|r| - 1])
    ensures r == [] <==> AllWhitespace(s)
  {
    var t := TrimStart(s);
    var r := TrimEnd(t);
    TrimmedInTwoCuts(s, t, r);
    r
  }

  // ------------------------------------------------------ decimal numbers

  predicate IsDigit(c: char) {
    '0' <= c <= '9'
  }

  function DigitChar(d: nat): char
    requires d < 10
  {
    ('0' as int + d) as char
  }

  function DigitValue(c: char): nat
    requires IsDigit(c)
  {
    c as int - '0' as int
  }

  /** `n.toString()` for a non-negative integer: its decimal digits, without leading zeros. */
  function NatToDecimal(n: nat): (r: string)
    ensures |r| >= 1
    ensures forall i :: 0 <= i < |r| ==> IsDigit(r[i])
    ensures r[0] == '0' <==> n == 0
    ensures n == 0 ==> r == "0"
    ensures |r| == 1 <==> n < 10
    decreases n
  {
    if n < 10 then [DigitChar(n)] else NatToDecimal(n / 10) + [DigitChar(n % 10)]
  }

  /** The number a string of decimal digits denotes. */
  function DecimalValue(s: string): nat
    requires forall i :: 0 <= i < |s| ==> IsDigit(s[i])
    decreases |s|
  {
    if s == [] then 0 else DecimalValue(s[..|s| - 1]) * 10 + DigitValue(s[|s| - 1])
  }

  lemma {:induction false} DecimalRoundTrip(n: nat)
    ensures DecimalValue(NatToDecimal(n)) == n
    decreases n
  {
    if n >= 10 {
      var s := NatToDecimal(n);
      assert s[..|s| - 1] == NatToDecimal(n / 10);
      DecimalRoundTrip(n / 10);
    }
  }
}
