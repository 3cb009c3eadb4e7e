/** The parts of JavaScript's number handling that the page component relies on:
    `parseInt(s, 10)`, `Number(s)` on decimal-integer text, and the decimal text a
    template literal such as `/page/${n}` produces for an integer.

    JavaScript numbers are doubles; here they are unbounded integers, and NaN is `None`. */
module JsNumbers {

  import opened Wrappers

  /** ECMAScript WhiteSpace and LineTerminator code points: the characters that
      `parseInt` skips at the front and `Number` trims at both ends. */
  predicate IsSpace(c: char)
  {
    || c == '\t' || c == '\n' || c == '\U{000B}' || c == '\U{000C}' || c == '\r'
    || c == ' ' || c == '\U{00A0}' || c == '\U{1680}'
    || ('\U{2000}' <= c <= '\U{200A}')
    || c == '\U{2028}' || c == '\U{2029}' || c == '\U{202F}' || c == '\U{205F}'
    || c == '\U{3000}' || c == '\U{FEFF}'
  }

  predicate IsDigit(c: char)
  {
    '0' <= c <= '9'
  }

  predicate AllSpace(s: string)
  {
    forall i :: 0 <= i < |s| ==> IsSpace(s[i])
  }

  predicate AllDigits(s: string)
  {
    forall i :: 0 <= i < |s| ==> IsDigit(s[i])
  }

  function DigitValue(c: char): (v: nat)
    requires IsDigit(c)
    ensures v < 10
  {
    (c as int) - ('0' as int)
  }

  function DigitChar(v: nat): (c: char)
    requires v < 10
    ensures IsDigit(c) && DigitValue(c) == v
  {
    (('0' as int) + v) as char
  }

  /** The value of a string of decimal digits, most significant first. */
  function DecimalValue(d: string): nat
    requires AllDigits(d)
  {
    if d == [] then 0 else DecimalValue(d[..|d| - 1]) * 10 + DigitValue(d[|d| - 1])
  }

  /** The shortest decimal text of a natural number: what JavaScript prints for it. */
  function Decimal(n: nat): (d: string)
    ensures d != [] && AllDigits(d)
    ensures DecimalValue(d) == n
    ensures d[0] == '0' ==> d == "0"
  {
    if n < 10 then [DigitChar(n)]
    else
      var d := Decimal(n / 10) + [DigitChar(n % 10)];
      assert d[..|d| - 1] == Decimal(n / 10);
      d
  }

  /** The text `${n}` produces for a number `n` that is NaN or an integer. */
  function NumberToString(n: Option<int>): (s: string)
    ensures s != []
  {
    match n
    case None => "NaN"
    case Some(v) => if v < 0 then "-" + Decimal(-v) else Decimal(v)
  }

  /** The first position at or after `i` that does not hold white space. */
  function SkipSpace(s: string, i: nat): (j: nat)
    requires i <= |s|
    ensures i <= j <= |s|
    ensures forall k :: i <= k < j ==> IsSpace(s[k])
    ensures j == |s| || !IsSpace(s[j])
    decreases |s| - i
  {
    if i < |s| && IsSpace(s[i]) then SkipSpace(s, i + 1) else i
  }

  /** The first position at or after `i` that does not hold a decimal digit. */
  function SkipDigits(s: string, i: nat): (j: nat)
    requires i <= |s|
    ensures i <= j <= |s|
    ensures forall k :: i <= k < j ==> IsDigit(s[k])
    ensures j == |s| || !IsDigit(s[j])
    decreases |s| - i
  {
    if i < |s| && IsDigit(s[i]) then SkipDigits(s, i + 1) else i
  }

  /** The end of `s[lo..hi]` once trailing white space is dropped. */
  function DropTrailingSpace(s: string, lo: nat, hi: nat): (e: nat)
    requires lo <= hi <= |s|
    ensures lo <= e <= hi
    ensures forall k :: e <= k < hi ==> IsSpace(s[k])
    ensures e == lo || !IsSpace(s[e - 1])
    decreases hi
  {
    if lo < hi && IsSpace(s[hi - 1]) then DropTrailingSpace(s, lo, hi - 1) else hi
  }

  /** The length of an optional '+' or '-' at position `i`. */
  function SignLength(s: string, i: nat): (n: nat)
    requires i <= |s|
    ensures n <= 1 && i + n <= |s|
    ensures n == 1 <==> i < |s| && (s[i] == '-' || s[i] == '+')
  {
    if i < |s| && (s[i] == '-' || s[i] == '+') then 1 else 0
  }

  function Signed(negative: bool, magnitude: nat): int
  {
    if negative then -(magnitude as int) else magnitude
  }

  /** `parseInt(s, 10)`: skip leading white space, take one optional sign, then the
      longest run of decimal digits; no digits at all gives NaN. Whatever follows the
      digits is ignored. */
  function ParseInt(s: string): Option<int>
  {
    var j := SkipSpace(s, 0);
    var k := j + SignLength(s, j);
    var e := SkipDigits(s, k);
    if e == k then None else Some(Signed(s[j] == '-', DecimalValue(s[k..e])))
  }

  /** `Number(s)` on the decimal-integer fragment: after trimming white space at both
      ends, the empty text is 0, an optional sign followed by digits only is that
      integer, and anything else is NaN. */
  function ToNumber(s: string): Option<int>
  {
    var j := SkipSpace(s, 0);
    var e := DropTrailingSpace(s, j, |s|);
    if j == e then Some(0)
    else
      var k := j + SignLength(s, j);
      if k < e && AllDigits(s[k..e]) then Some(Signed(s[j] == '-', DecimalValue(s[k..e]))) else None
  }

  // ---------------------------------------------------------------------------
  // Lemmas

  /** `SkipSpace` stops at the first position that does not hold white space. */
  lemma SkipSpaceTo(s: string, i: nat, j: nat)
    requires i <= j <= |s|
    requires forall k :: i <= k < j ==> IsSpace(s[k])
    requires j == |s| || !IsSpace(s[j])
    ensures SkipSpace(s, i) == j
  {
  }

  /** `SkipDigits` stops at the first position that does not hold a digit. */
  lemma SkipDigitsTo(s: string, i: nat, j: nat)
    requires i <= j <= |s|
    requires forall k :: i <= k < j ==> IsDigit(s[k])
    requires j == |s| || !IsDigit(s[j])
    ensures SkipDigits(s, i) == j
  {
  }

  /** Text that holds no digit at all parses to NaN. */
  lemma ParseIntWithoutDigits(s: string)
    requires forall i :: 0 <= i < |s| ==> !IsDigit(s[i])
    ensures ParseInt(s) == None
  {
  }

  /** `parseInt` once the positions of the sign and of the digits are known. */
  lemma ParseIntAt(s: string, j: nat, k: nat, e: nat)
    requires j <= |s| && SkipSpace(s, 0) == j
    requires k == j + SignLength(s, j)
    requires k < e && SkipDigits(s, k) == e
    ensures ParseInt(s) == Some(Signed(s[j] == '-', DecimalValue(s[k..e])))
  {
  }

  /** In white space + sign + digits + rest, the sign sits right after the white space. */
  lemma SignAfterSpace(ws: string, sign: string, d: string, rest: string)
    requires AllSpace(ws)
    requires sign == "" || sign == "+" || sign == "-"
    requires d != [] && AllDigits(d)
    ensures var s := ws + sign + d + rest;
      && SkipSpace(s, 0) == |ws|
      && SignLength(s, |ws|) == |sign|
      && (s[|ws|] == '-') == (sign == "-")
  {
    var s := ws + sign + d + rest;
    var j := |ws|;
    assert forall i :: 0 <= i < j ==> s[i] == ws[i];
    assert IsDigit(d[0]);
    assert s[j] == if sign == "" then d[0] else sign[0];
    SkipSpaceTo(s, 0, j);
  }

  /** In white space + sign + digits + rest, the digit run is exactly `d`. */
  lemma DigitsAfterSign(ws: string, sign: string, d: string, rest: string)
    requires AllDigits(d)
    requires rest == [] || !IsDigit(rest[0])
    ensures var s, k := ws + sign + d + rest, |ws| + |sign|;
      SkipDigits(s, k) == k + |d| && s[k..k + |d|] == d
  {
    var s, k := ws + sign + d + rest, |ws| + |sign|;
    assert forall i :: k <= i < k + |d| ==> s[i] == d[i - k];
    assert k + |d| < |s| ==> s[k + |d|] == rest[0];
    SkipDigitsTo(s, k, k + |d|);
  }

  /** White space, one optional sign, at least one digit, then anything that does not
      start with a digit: `parseInt` returns the signed value of exactly those digits. */
  lemma ParseIntOfLeadingDigits(ws: string, sign: string, d: string, rest: string)
    requires AllSpace(ws)
    requires sign == "" || sign == "+" || sign == "-"
    requires d != [] && AllDigits(d)
    requires rest == [] || !IsDigit(rest[0])
    ensures ParseInt(ws + sign + d + rest) == Some(Signed(sign == "-", DecimalValue(d)))
  {
    var s, j := ws + sign + d + rest, |ws|;
    SignAfterSpace(ws, sign, d, rest);
    DigitsAfterSign(ws, sign, d, rest);
    ParseIntAt(s, j, j + |sign|, j + |sign| + |d|);
  }

  /** Printing an integer (or NaN) into the URL and parsing it back yields it again. */
  lemma ParseIntRoundTrip(n: Option<int>)
    ensures ParseInt(NumberToString(n)) == n
  {
    match n
    case None =>
      ParseIntWithoutDigits("NaN");
    case Some(v) =>
      var sign := if v < 0 then "-" else "";
      var d := Decimal(if v < 0 then -v else v);
      assert NumberToString(n) == [] + sign + d + [];
      ParseIntOfLeadingDigits([], sign, d, []);
  }

  /** `Number` on non-blank text once the trimmed span and its sign are known. */
  lemma ToNumberAt(s: string, j: nat, e: nat, k: nat)
    requires j <= |s| && SkipSpace(s, 0) == j
    requires j <= e && DropTrailingSpace(s, j, |s|) == e
    requires j < e && k == j + SignLength(s, j)
    ensures ToNumber(s) == if k < e && AllDigits(s[k..e]) then Some(Signed(s[j] == '-', DecimalValue(s[k..e]))) else None
  {
  }

  /** When `Number` reads non-blank decimal-integer text as an integer, `parseInt`
      agrees with it. (On blank text `Number` gives 0 where `parseInt` gives NaN;
      exponent and hexadecimal text such as "1e2" and "0x1E", which `ToNumber`
      leaves out, are where JavaScript's two parsers differ.) */
  lemma ToNumberAgreesWithParseInt(s: string)
    requires ToNumber(s).Some?
    requires SkipSpace(s, 0) < |s|
    ensures ParseInt(s) == ToNumber(s)
  {
    var j := SkipSpace(s, 0);
    var e := DropTrailingSpace(s, j, |s|);
    assert j < e;
    var k := j + SignLength(s, j);
    ToNumberAt(s, j, e, k);
    assert k < e && AllDigits(s[k..e]);
    assert e == |s| || !IsDigit(s[e]) by {
      if e < |s| { assert IsSpace(s[e]); }
    }
    assert forall i :: k <= i < e ==> s[i] == s[k..e][i - k];
    SkipDigitsTo(s, k, e);
    ParseIntAt(s, j, k, e);
  }

  /** `DropTrailingSpace` stops after the last character that is not white space. */
  lemma DropTrailingSpaceTo(s: string, lo: nat, hi: nat, e: nat)
    requires lo <= e <= hi <= |s|
    requires forall k :: e <= k < hi ==> IsSpace(s[k])
    requires e == lo || !IsSpace(s[e - 1])
    ensures DropTrailingSpace(s, lo, hi) == e
  {
  }

  /** `Number` of an optional minus sign followed by digits only. */
  lemma ToNumberOfSignedDigits(sign: string, d: string)
    requires sign == "" || sign == "-"
    requires d != [] && AllDigits(d)
    ensures ToNumber(sign + d) == Some(Signed(sign == "-", DecimalValue(d)))
  {
    var s := sign + d;
    var k := |sign|;
    assert IsDigit(d[0]) && IsDigit(d[|d| - 1]);
    assert s[k] == d[0] && s[|s| - 1] == d[|d| - 1];
    assert sign == "-" ==> s[0] == '-';
    SkipSpaceTo(s, 0, 0);
    DropTrailingSpaceTo(s, 0, |s|, |s|);
    assert SignLength(s, 0) == k;
    ToNumberAt(s, 0, |s|, k);
    assert s[k..|s|] == d;
  }

  /** `Number` reads back every integer the page component prints. */
  lemma ToNumberRoundTrip(v: int)
    ensures ToNumber(NumberToString(Some(v))) == Some(v)
  {
    var m: nat := if v < 0 then -v else v;
    var sign := if v < 0 then "-" else "";
    var d := Decimal(m);
    assert NumberToString(Some(v)) == sign + d;
    ToNumberOfSignedDigits(sign, d);
    assert Signed(sign == "-", DecimalValue(d)) == v;
  }

  /** Where the two parsers part ways: `parseInt` stops at the first non-digit,
      while `Number` rejects the whole text. */
  lemma TrailingTextParsers()
    ensures ParseInt("12px") == Some(12) && ToNumber("12px") == None
  {
    var s := "12px";
    assert ParseInt(s) == Some(12) by {
      assert DecimalValue("12") == 12 by { assert "12"[..1] == "1"; }
      assert s == "" + "" + "12" + "px";
      ParseIntOfLeadingDigits("", "", "12", "px");
    }
    assert ToNumber(s) == None by {
      SkipSpaceTo(s, 0, 0);
      DropTrailingSpaceTo(s, 0, 4, 4);
      ToNumberAt(s, 0, 4, 0);
      assert !IsDigit(s[0..4][2]);
    }
  }

  /** Blank text is NaN to `parseInt` and 0 to `Number`. */
  lemma BlankTextParsers()
    ensures ParseInt("  ") == None && ToNumber("  ") == Some(0)
  {
    ParseIntWithoutDigits("  ");
    SkipSpaceTo("  ", 0, 2);
    DropTrailingSpaceTo("  ", 2, 2, 2);
  }

  /** Both parsers skip surrounding white space and honour a minus sign. */
  lemma SignedTextParsers()
    ensures ParseInt(" -5 ") == Some(-5) && ToNumber(" -5 ") == Some(-5)
  {
    var s := " -5 ";
    assert DecimalValue("5") == 5;
    assert ParseInt(s) == Some(-5) by {
      assert s == " " + "-" + "5" + " ";
      ParseIntOfLeadingDigits(" ", "-", "5", " ");
    }
    assert ToNumber(s) == Some(-5) by {
      SkipSpaceTo(s, 0, 1);
      DropTrailingSpaceTo(s, 1, 4, 3);
      ToNumberAt(s, 1, 3, 2);
      assert s[2..3] == "5";
    }
  }

  /** Text without a single digit is never a nonzero number to `ToNumber`: it is NaN,
      or 0 when it is blank. (JavaScript's `Number` also reads the digit-free
      "Infinity", which `ToNumber` leaves out.) */
  lemma ToNumberWithoutDigits(s: string)
    requires forall i :: 0 <= i < |s| ==> !IsDigit(s[i])
    ensures ToNumber(s) == None || ToNumber(s) == Some(0)
  {
    var j := SkipSpace(s, 0);
    var e := DropTrailingSpace(s, j, |s|);
    if j < e {
      var k := j + SignLength(s, j);
      ToNumberAt(s, j, e, k);
      if k < e {
        assert s[k..e][0] == s[k];
      }
    }
  }
}
