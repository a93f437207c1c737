/**
 * The JavaScript string and number primitives that the roster app relies on:
 * `String.prototype.trim`, `toLowerCase`, `String(n)` for a non-negative
 * integer, `Number(text)`, `split` on one separator character, and the
 * `x || ""` fallback for an absent string.
 */
module JsText {
  import opened Wrappers

  // ---------------------------------------------------------------------------
  // Whitespace and trim
  // ---------------------------------------------------------------------------

  /** The characters `trim` removes: ECMAScript WhiteSpace and LineTerminator. */
  predicate IsJsSpace(c: char)
  {
    c == '\t' || c == '\n' || c == '\U{000B}' || c == '\U{000C}' || c == '\r' || c == ' '
    || c == '\U{00A0}' || c == '\U{1680}' || ('\U{2000}' <= c <= '\U{200A}')
    || c == '\U{2028}' || c == '\U{2029}' || c == '\U{202F}' || c == '\U{205F}'
    || c == '\U{3000}' || c == '\U{FEFF}'
  }

  predicate AllSpace(s: string)
  {
    forall i :: 0 <= i < |s| ==> IsJsSpace(s[i])
  }

  /** Number of whitespace characters at the front of `s`. */
  function LeadingSpaces(s: string): (k: nat)
    ensures k <= |s|
    ensures AllSpace(s[..k])
    ensures k < |s| ==> !IsJsSpace(s[k])
  {
    if |s| > 0 && IsJsSpace(s[0]) then
      var k := 1 + LeadingSpaces(s[1..]);
      assert s[..k] == [s[0]] + s[1..][..k - 1];
      k
    else 0
  }

  /** Number of whitespace characters at the back of `s`. */
  function TrailingSpaces(s: string): (k: nat)
    ensures k <= |s|
    ensures AllSpace(s[|s| - k..])
    ensures k < |s| ==> !IsJsSpace(s[|s| - k - 1])
  {
    if |s| > 0 && IsJsSpace(s[|s| - 1]) then
      var init := s[..|s| - 1];
      var k := 1 + TrailingSpaces(init);
      assert s[|s| - k..] == init[|init| - (k - 1)..] + [s[|s| - 1]];
      k
    else 0
  }

  /** `s.trim()`: the part of `s` between its leading and its trailing whitespace. */
  function Trim(s: string): (r: string)
    ensures |r| <= |s|
    ensures r == [] <==> AllSpace(s)
    ensures r != [] ==> !IsJsSpace(r[0]) && !IsJsSpace(r[|r| - 1])
    ensures var i := LeadingSpaces(s);
      i + |r| <= |s| && r == s[i..i + |r|] && AllSpace(s[..i]) && AllSpace(s[i + |r|..])
  {
    var lead := LeadingSpaces(s);
    var rest := s[lead..];
    var trail := TrailingSpaces(rest);
    var r := rest[..|rest| - trail];
    assert lead + |r| == |s| - trail;
    assert r == s[lead..lead + |r|];
    assert s[lead + |r|..] == rest[|rest| - trail..];
    assert r == [] <==> AllSpace(s) by {
      if lead < |s| {
        // the first kept character is not whitespace, so something is kept
        assert rest[0] == s[lead] && !IsJsSpace(rest[0]);
        assert trail < |rest|;
      } else {
        assert s[..lead] == s;
      }
    }
    r
  }

  /** Trimming twice is trimming once. */
  lemma {:induction false} TrimIdempotent(s: string)
    ensures Trim(Trim(s)) == Trim(s)
  {
    var t := Trim(s);
    if t != [] {
      assert LeadingSpaces(t) == 0;
      assert TrailingSpaces(t) == 0;
      assert t[0..] == t;
      assert t[..|t|] == t;
    }
  }

  /** `x || ""` for a string that may be `null`/`undefined` (the empty string is falsy too). */
  function OrEmpty(x: Option<string>): (r: string)
    ensures x.Some? ==> r == x.value
    ensures x.None? ==> r == ""
  {
    x.GetOr("")
  }

  // ---------------------------------------------------------------------------
  // Lower case
  // ---------------------------------------------------------------------------

  /** The lower-case form of one character, for A-Z and the Latin-1 capitals. */
  function LowerChar(c: char): char
  {
    if 'A' <= c <= 'Z' || ('\U{00C0}' <= c <= '\U{00DE}' && c != '\U{00D7}') then
      (c as int + 32) as char
    else c
  }

  /** `s.toLowerCase()`, one character at a time. */
  function ToLower(s: string): (r: string)
    ensures |r| == |s|
    ensures forall i :: 0 <= i < |s| ==> r[i] == LowerChar(s[i])
  {
    seq(|s|, i requires 0 <= i < |s| => LowerChar(s[i]))
  }

  /** Text without capitals, so that `toLowerCase` leaves it as it is. */
  predicate IsLower(s: string)
  {
    forall i :: 0 <= i < |s| ==> LowerChar(s[i]) == s[i]
  }

  /** Lower-cased text is lower case. */
  lemma ToLowerIsLower(s: string)
    ensures IsLower(ToLower(s))
  {
  }

  /**
   * `k` is `s` lower-cased and trimmed, told character by character: the
   * lowered characters of `s` that follow its leading whitespace, with only
   * whitespace after them.
   */
  predicate IsLoweredTrim(s: string, k: string)
  {
    var i := LeadingSpaces(s);
    && i + |k| <= |s|
    && AllSpace(s[..i]) && AllSpace(s[i + |k|..])
    && forall j :: 0 <= j < |k| ==> k[j] == LowerChar(s[i + j])
  }

  /** Lower-casing neither makes nor unmakes whitespace. */
  lemma LowerCharSpace(c: char)
    ensures IsJsSpace(LowerChar(c)) == IsJsSpace(c)
  {
  }

  /** Lower-casing keeps the leading whitespace. */
  lemma {:induction false} LeadingSpacesOfLower(s: string)
    ensures LeadingSpaces(ToLower(s)) == LeadingSpaces(s)
  {
    if |s| > 0 {
      LowerCharSpace(s[0]);
      assert ToLower(s)[1..] == ToLower(s[1..]);
      LeadingSpacesOfLower(s[1..]);
    }
  }

  /** Lower-casing then trimming keeps the lowered characters between the whitespace at the ends. */
  lemma TrimOfLower(s: string)
    ensures IsLoweredTrim(s, Trim(ToLower(s)))
  {
    var t := ToLower(s);
    var k := Trim(t);
    var i := LeadingSpaces(t);
    LeadingSpacesOfLower(s);
    LoweredSpaces(s, t, i + |k|);
    LoweredInfix(s, t, k, i);
  }

  /** Where the lowered text is whitespace, so is the text. */
  lemma LoweredSpaces(s: string, t: string, n: nat)
    requires |t| == |s| && forall x :: 0 <= x < |s| ==> t[x] == LowerChar(s[x])
    requires n <= |t| && AllSpace(t[n..])
    ensures AllSpace(s[n..])
  {
    forall j | n <= j < |s|
      ensures IsJsSpace(s[j])
    {
      assert t[n..][j - n] == t[j];
      LowerCharSpace(s[j]);
    }
  }

  /** A slice of the lowered text is the lowered slice of the text. */
  lemma LoweredInfix(s: string, t: string, k: string, i: nat)
    requires |t| == |s| && forall x :: 0 <= x < |s| ==> t[x] == LowerChar(s[x])
    requires i + |k| <= |t| && k == t[i..i + |k|]
    ensures forall j :: 0 <= j < |k| ==> k[j] == LowerChar(s[i + j])
  {
    forall j | 0 <= j < |k|
      ensures k[j] == LowerChar(s[i + j])
    {
      assert k[j] == t[i + j];
    }
  }

  /** Trimming keeps text lower case: it only drops characters from the ends. */
  lemma TrimKeepsLower(s: string)
    requires IsLower(s)
    ensures IsLower(Trim(s))
  {
    var lead := LeadingSpaces(s);
    var rest := s[lead..];
    var r := rest[..|rest| - TrailingSpaces(rest)];
    assert Trim(s) == r;
    forall i | 0 <= i < |r|
      ensures LowerChar(r[i]) == r[i]
    {
      assert r[i] == s[lead + i];
    }
  }

  lemma ToLowerOfLower(s: string)
    requires IsLower(s)
    ensures ToLower(s) == s
  {
  }

  // ---------------------------------------------------------------------------
  // Decimal digits and numbers
  // ---------------------------------------------------------------------------

  /** `\d` in a JavaScript regular expression without the `u` flag. */
  predicate IsDigit(c: char)
  {
    '0' <= c <= '9'
  }

  predicate AllDigits(s: string)
  {
    forall i :: 0 <= i < |s| ==> IsDigit(s[i])
  }

  function DigitChar(d: nat): (c: char)
    requires d < 10
    ensures IsDigit(c)
  {
    ('0' as int + d) as char
  }

  /** Digits are not whitespace, so `trim` leaves a string of digits as it is. */
  lemma TrimDigits(s: string)
    requires AllDigits(s)
    ensures Trim(s) == s
  {
    if s != [] {
      assert !IsJsSpace(s[0]) && !IsJsSpace(s[|s| - 1]);
      assert LeadingSpaces(s) == 0 && TrailingSpaces(s) == 0;
      assert s[0..] == s && s[..|s|] == s;
    }
  }

  /** The value of a string of decimal digits, leading zeros allowed. */
  function DecimalValue(s: string): (v: nat)
    requires AllDigits(s)
  {
    if s == [] then 0
    else DecimalValue(s[..|s| - 1]) * 10 + (s[|s| - 1] as int - '0' as int)
  }

  /** `String(n)` for a non-negative integer below 10^21: its decimal digits, no leading zero. */
  function NatToString(n: nat): (s: string)
    ensures |s| >= 1 && AllDigits(s)
    ensures |s| > 1 ==> s[0] != '0'
  {
    if n < 10 then [DigitChar(n)]
    else NatToString(n / 10) + [DigitChar(n % 10)]
  }

  /** Reading back what `String(n)` printed gives `n`. */
  lemma {:induction false} DecimalValueOfNatToString(n: nat)
    ensures DecimalValue(NatToString(n)) == n
  {
    var s := NatToString(n);
    if n >= 10 {
      assert s[..|s| - 1] == NatToString(n / 10);
      DecimalValueOfNatToString(n / 10);
    }
  }

  /** A JavaScript number, as far as this app produces them: an integer or NaN. */
  datatype JsNumber = Num(n: int) | NaN

  /**
   * `Number(s)` for the inputs the app feeds it: blank text is 0, a string of
   * digits (surrounding whitespace allowed) is its decimal value, and any other
   * text is NaN.
   */
  function ToNumber(s: string): (r: JsNumber)
    ensures AllSpace(s) ==> r == Num(0)
    ensures r.Num? ==> r.n >= 0
  {
    var t := Trim(s);
    if t == [] then Num(0)
    else if AllDigits(t) then Num(DecimalValue(t))
    else NaN
  }

  /** `Number(String(n)) === n` for the non-negative integers. */
  lemma NumberOfNatToString(n: nat)
    ensures ToNumber(NatToString(n)) == Num(n)
  {
    var s := NatToString(n);
    TrimDigits(s);
    DecimalValueOfNatToString(n);
  }

  // ---------------------------------------------------------------------------
  // split
  // ---------------------------------------------------------------------------

  /** `s.split(sep)` for a one-character separator: always at least one part. */
  function Split(s: string, sep: char): (parts: seq<string>)
    ensures |parts| >= 1
    ensures |parts| == 1 <==> sep !in s
    ensures forall i :: 0 <= i < |parts| ==> sep !in parts[i]
    decreases |s|
  {
    if |s| == 0 then [""]
    else
      var rest := Split(s[1..], sep);
      assert sep in s <==> s[0] == sep || sep in s[1..];
      if s[0] == sep then [""] + rest
      else
        var parts := [[s[0]] + rest[0]] + rest[1..];
        assert forall i :: 1 <= i < |parts| ==> parts[i] == rest[i];
        parts
  }

  /** A string without the separator splits into itself alone. */
  lemma {:induction false} SplitWithoutSeparator(s: string, sep: char)
    requires sep !in s
    ensures Split(s, sep) == [s]
    decreases |s|
  {
    if |s| > 0 {
      assert sep !in s[1..];
      SplitWithoutSeparator(s[1..], sep);
      assert [s[0]] + s[1..] == s;
    }
  }

  /** Splitting cuts at the first separator: the part before it comes first. */
  lemma {:induction false} SplitAtFirstSeparator(a: string, sep: char, b: string)
    requires sep !in a
    ensures Split(a + [sep] + b, sep) == [a] + Split(b, sep)
    decreases |a|
  {
    var s := a + [sep] + b;
    if |a| == 0 {
      assert s[1..] == b;
    } else {
      assert s[1..] == a[1..] + [sep] + b;
      assert sep !in a[1..];
      SplitAtFirstSeparator(a[1..], sep, b);
      assert [a[0]] + a[1..] == a;
    }
  }
}
