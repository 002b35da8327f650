/**
 * The pieces of Python's string handling the run configuration relies on:
 * `int()` and `float()` of a text field, `str()` of an int, `str.lower`,
 * `str.endswith` and `str.split`.  Whitespace and letter case are ASCII only.
 */
module Text {
  import opened Wrappers
  import opened Floats

  predicate IsDigit(c: char) {
    '0' <= c <= '9'
  }

  predicate IsSpace(c: char) {
    c == ' ' || c == '\t' || c == '\n' || c == '\r' || c == 11 as char || c == 12 as char
  }

  /** The first index at or after i that is not whitespace, or |s|. */
  function SpanStart(s: string, i: nat): (k: nat)
    requires i <= |s|
    ensures i <= k <= |s| && forall j :: i <= j < k ==> IsSpace(s[j])
    ensures k < |s| ==> !IsSpace(s[k])
    decreases |s| - i
  {
    if i == |s| || !IsSpace(s[i]) then i else SpanStart(s, i + 1)
  }

  /** One past the last index in [lo, hi) that is not whitespace, or lo. */
  function SpanEnd(s: string, lo: nat, hi: nat): (k: nat)
    requires lo <= hi <= |s|
    ensures lo <= k <= hi && forall j :: k <= j < hi ==> IsSpace(s[j])
    ensures lo < k ==> !IsSpace(s[k - 1])
    decreases hi
  {
    if hi == lo || !IsSpace(s[hi - 1]) then hi else SpanEnd(s, lo, hi - 1)
  }

  /** s[i..j] is what is left of s once whitespace is dropped from both ends. */
  predicate StripsTo(s: string, i: nat, j: nat) {
    && i <= j <= |s|
    && (forall k :: 0 <= k < i ==> IsSpace(s[k]))
    && (forall k :: j <= k < |s| ==> IsSpace(s[k]))
  }

  /** `s.strip()`: what is left once the whitespace at both ends is
      dropped; it has no whitespace at either end. */
  function Strip(s: string): (t: string)
    ensures |t| <= |s|
    ensures t != [] ==> !IsSpace(t[0]) && !IsSpace(t[|t| - 1])
  {
    s[SpanStart(s, 0)..SpanEnd(s, SpanStart(s, 0), |s|)]
  }

  /** The stripped text is a slice of `s` with only whitespace before and
      after it. */
  lemma StripSlice(s: string)
    ensures exists i: nat, j: nat :: StripsTo(s, i, j) && Strip(s) == s[i..j]
  {
    var i := SpanStart(s, 0);
    var j := SpanEnd(s, i, |s|);
    assert StripsTo(s, i, j);
  }

  /** Whitespace around a text whose ends are not whitespace is what strip
      removes: `" 512 ".strip() == "512"`. */
  lemma StripPadded(pre: string, x: string, post: string)
    requires forall k :: 0 <= k < |pre| ==> IsSpace(pre[k])
    requires forall k :: 0 <= k < |post| ==> IsSpace(post[k])
    requires x != [] && !IsSpace(x[0]) && !IsSpace(x[|x| - 1])
    ensures Strip(pre + x + post) == x
  {
    var s := pre + x + post;
    assert s[|pre|] == x[0] && s[|pre| + |x| - 1] == x[|x| - 1];
    assert forall k :: 0 <= k < |pre| ==> s[k] == pre[k];
    assert forall k :: |pre| + |x| <= k < |s| ==> s[k] == post[k - |pre| - |x|];
    var i := SpanStart(s, 0);
    assert i == |pre|;
    var j := SpanEnd(s, i, |s|);
    assert j == |pre| + |x|;
    assert s[i..j] == x;
  }

  lemma StripNoSpace(s: string)
    requires s != [] ==> !IsSpace(s[0]) && !IsSpace(s[|s| - 1])
    ensures Strip(s) == s
  {
    if s != [] {
      StripPadded([], s, []);
      assert [] + s + [] == s;
    }
  }

  function LowerChar(c: char): char {
    if 'A' <= c <= 'Z' then (c as int + 32) as char else c
  }

  /** `s.lower()` on ASCII letters. */
  function Lower(s: string): (t: string)
    ensures |t| == |s| && forall i :: 0 <= i < |s| ==> t[i] == LowerChar(s[i])
  {
    seq(|s|, i requires 0 <= i < |s| => LowerChar(s[i]))
  }

  predicate EndsWith(s: string, suffix: string) {
    |suffix| <= |s| && s[|s| - |suffix|..] == suffix
  }

  /** Digits with single underscores between them, as `int()` and `float()`
      accept: "1_000" but not "_1", "1_" or "1__0". */
  predicate DigitRun(s: string) {
    && |s| > 0 && IsDigit(s[0]) && IsDigit(s[|s| - 1])
    && (forall i :: 0 <= i < |s| ==> IsDigit(s[i]) || s[i] == '_')
    && (forall i :: 0 <= i < |s| - 1 && s[i] == '_' ==> s[i + 1] != '_')
  }

  /** The value of a run of digits, underscores ignored. */
  function DigitsValue(s: string): (v: nat)
    requires forall i :: 0 <= i < |s| ==> IsDigit(s[i]) || s[i] == '_'
  {
    if s == [] then 0
    else if s[|s| - 1] == '_' then DigitsValue(s[..|s| - 1])
    else DigitsValue(s[..|s| - 1]) * 10 + DigitValue(s[|s| - 1])
  }

  function DigitValue(c: char): (d: nat)
    requires IsDigit(c)
    ensures d < 10
  {
    c as int - '0' as int
  }

  /** How many digits (not underscores) a run holds. */
  function DigitCount(s: string): nat {
    if s == [] then 0 else DigitCount(s[..|s| - 1]) + (if s[|s| - 1] == '_' then 0 else 1)
  }

  /** An optional leading sign: whether it was '-', and what follows it. */
  function SplitSign(t: string): (bool, string) {
    if t != [] && (t[0] == '+' || t[0] == '-') then (t[0] == '-', t[1..]) else (false, t)
  }

  /** `int(s)` for a base-10 text: surrounding whitespace, an optional sign,
      then a digit run.  None where Python raises ValueError. */
  function ParseInt(s: string): (r: Option<int>)
    ensures r.Some? ==> var t := Strip(s); |t| > 0 && IsDigit(t[|t| - 1])
    ensures r.Some? && r.value < 0 ==> Strip(s)[0] == '-'
  {
    var (negative, body) := SplitSign(Strip(s));
    if DigitRun(body) then Some(if negative then -(DigitsValue(body) as int) else DigitsValue(body))
    else None
  }

  function DigitChar(d: nat): char
    requires d < 10
  {
    ('0' as int + d) as char
  }

  function NatToString(n: nat): (s: string)
    ensures |s| > 0 && forall i :: 0 <= i < |s| ==> IsDigit(s[i])
  {
    if n < 10 then [DigitChar(n)] else NatToString(n / 10) + [DigitChar(n % 10)]
  }

  /** `str(n)`. */
  function IntToString(n: int): (s: string)
    ensures |s| > 0 && IsDigit(s[|s| - 1])
    ensures s[0] == '-' <==> n < 0
    ensures forall k :: 0 < k < |s| ==> IsDigit(s[k])
  {
    if n < 0 then "-" + NatToString(-n) else NatToString(n)
  }

  lemma {:induction false} NatToStringValue(n: nat)
    ensures DigitRun(NatToString(n)) && DigitsValue(NatToString(n)) == n
  {
    var s := NatToString(n);
    if 10 <= n {
      NatToStringValue(n / 10);
      assert s[..|s| - 1] == NatToString(n / 10);
    }
  }

  /** `int(str(n)) == n`. */
  lemma IntRoundTrip(n: int)
    ensures ParseInt(IntToString(n)) == Some(n)
  {
    var m := if n < 0 then -n else n;
    var s, digits := IntToString(n), NatToString(m);
    NatToStringValue(m);
    assert SplitSign(s) == (n < 0, digits) by {
      assert digits[0] != '-' && digits[0] != '+';
    }
    assert Strip(s) == s by {
      StripNoSpace(s);
    }
  }

  /** `int()` ignores whitespace around the number: int(" 512 ") == 512. */
  lemma ParseIntPadded(pre: string, n: int, post: string)
    requires forall k :: 0 <= k < |pre| ==> IsSpace(pre[k])
    requires forall k :: 0 <= k < |post| ==> IsSpace(post[k])
    ensures ParseInt(pre + IntToString(n) + post) == Some(n)
  {
    var x := IntToString(n);
    var m := if n < 0 then -n else n;
    assert x[|x| - 1] == NatToString(m)[|NatToString(m)| - 1];
    assert x[0] == '-' || x[0] == NatToString(m)[0];
    StripPadded(pre, x, post);
    IntRoundTrip(n);
    SameStrip(pre + x + post, x);
  }

  /** int() reads only what strip leaves. */
  lemma SameStrip(s: string, x: string)
    requires Strip(s) == Strip(x)
    ensures ParseInt(s) == ParseInt(x)
  {
  }

  /** `str()` never yields two texts for two different ints. */
  lemma IntToStringInjective(m: int, n: int)
    requires IntToString(m) == IntToString(n)
    ensures m == n
  {
    IntRoundTrip(m);
    IntRoundTrip(n);
  }

  /** 10 to an integer power. */
  function Pow10(k: int): (p: real)
    ensures 0.0 < p
    decreases if k < 0 then -k else k
  {
    if k == 0 then 1.0
    else if k > 0 then 10.0 * Pow10(k - 1)
    else Pow10(k + 1) / 10.0
  }

  /** The index of the first character of `s` in `cs`, or |s|. */
  function Find(s: string, cs: set<char>): (i: nat)
    ensures i <= |s| && forall j :: 0 <= j < i ==> s[j] !in cs
    ensures i < |s| ==> s[i] in cs
  {
    if s == [] || s[0] in cs then 0 else 1 + Find(s[1..], cs)
  }

  /** The value of the digits after a decimal point: "25" is 0.25. */
  function Fraction(f: string): real
    requires forall i :: 0 <= i < |f| ==> IsDigit(f[i]) || f[i] == '_'
  {
    DigitsValue(f) as real / Pow10(DigitCount(f))
  }

  /** The value of a mantissa "12", "12.", "12.5" or ".5". */
  function ParseMantissa(m: string): Option<real> {
    var i := Find(m, {'.'});
    if i == |m| then
      if DigitRun(m) then Some(DigitsValue(m) as real) else None
    else
      var whole, fraction := m[..i], m[i + 1..];
      if (whole == [] || DigitRun(whole)) && (fraction == [] || DigitRun(fraction)) && (whole != [] || fraction != [])
      then Some(DigitsValue(whole) as real + Fraction(fraction))
      else None
  }

  /** A decimal float text without its sign: a mantissa, then optionally
      'e' or 'E', a sign and a digit run. */
  function ParseDecimal(body: string): Option<real> {
    var i := Find(body, {'e', 'E'});
    match ParseMantissa(body[..i])
    case None => None
    case Some(m) =>
      if i == |body| then Some(m)
      else
        var (negative, digits) := SplitSign(body[i + 1..]);
        if DigitRun(digits) then
          var k: int := DigitsValue(digits);
          Some(m * Pow10(if negative then -k else k))
        else None
  }

  /** `float(s)`: surrounding whitespace, an optional sign, then "inf",
      "infinity" or "nan" in any case, or a decimal.  None where Python
      raises ValueError. */
  function ParseFloat(s: string): Option<Float> {
    var (negative, body) := SplitSign(Strip(s));
    var word := Lower(body);
    if word == "inf" || word == "infinity" || word == "nan" then Some(NonFinite)
    else
      match ParseDecimal(body)
      case None => None
      case Some(v) => Some(Finite(if negative then -v else v))
  }

  /** Every text `int()` accepts, `float()` accepts with the same value. */
  lemma ParseFloatOfInt(s: string)
    requires ParseInt(s).Some?
    ensures ParseFloat(s) == Some(Finite(ParseInt(s).value as real))
  {
    var (negative, body) := SplitSign(Strip(s));
    assert forall j :: 0 <= j < |body| ==> body[j] !in {'e', 'E'} && body[j] != '.';
    assert body[..|body|] == body;
    NumericBody(s, negative, body, DigitsValue(body) as real);
  }

  /** A body starting with a digit is not one of the words inf, infinity or
      nan, so float() reads it as a decimal. */
  lemma NumericBody(s: string, negative: bool, body: string, v: real)
    requires SplitSign(Strip(s)) == (negative, body) && body != [] && IsDigit(body[0])
    requires ParseDecimal(body) == Some(v)
    ensures ParseFloat(s) == Some(Finite(if negative then -v else v))
  {
    var word := Lower(body);
    assert word != "inf" && word != "infinity" && word != "nan" by {
      NotWord(body);
    }
  }

  lemma NotWord(body: string)
    requires body != [] && IsDigit(body[0])
    ensures var word := Lower(body); word != "inf" && word != "infinity" && word != "nan"
  {
    assert Lower(body)[0] == body[0];
  }

  /** The pieces joined back together, `sep.join(parts)`. */
  function Join(parts: seq<string>, sep: char): string
    requires |parts| > 0
  {
    if |parts| == 1 then parts[0] else parts[0] + [sep] + Join(parts[1..], sep)
  }

  /** `s.split(sep)`: the pieces between occurrences of `sep`, none holding
      `sep`, which joined with `sep` give back `s`. */
  function Split(s: string, sep: char): (parts: seq<string>)
    ensures |parts| > 0
    ensures forall k :: 0 <= k < |parts| ==> sep !in parts[k]
    ensures Join(parts, sep) == s
    decreases |s|
  {
    var i := Find(s, {sep});
    if i == |s| then
      assert s[..i] == s;
      [s]
    else
      var rest := Split(s[i + 1..], sep);
      assert ([s[..i]] + rest)[1..] == rest;
      assert s[..i] + [sep] + s[i + 1..] == s;
      [s[..i]] + rest
  }

  /** Splitting a + [sep] + b on a separator absent from a and b gives back
      a and b. */
  lemma SplitPair(a: string, b: string, sep: char)
    requires sep !in a && sep !in b
    ensures Split(a + [sep] + b, sep) == [a, b]
  {
    var s := a + [sep] + b;
    assert s[|a|] == sep;
    assert forall j :: 0 <= j < |a| ==> s[j] == a[j];
    assert Find(s, {sep}) == |a|;
    assert s[..|a|] == a && s[|a| + 1..] == b;
    assert forall j :: 0 <= j < |b| ==> b[j] != sep;
  }

  /** The decimal "a.b" has the value a plus the fraction b. */
  lemma DecimalValue(a: string, b: string)
    requires DigitRun(a) && DigitRun(b)
    ensures ParseDecimal(a + "." + b)
         == Some(DigitsValue(a) as real + Fraction(b))
  {
    var body := a + "." + b;
    assert forall j :: 0 <= j < |a| ==> body[j] == a[j];
    assert forall j :: |a| < j < |body| ==> body[j] == b[j - |a| - 1];
    assert body[|a|] == '.';
    assert Find(body, {'e', 'E'}) == |body|;
    assert body[..|body|] == body;
    assert Find(body, {'.'}) == |a|;
    assert body[..|a|] == a && body[|a| + 1..] == b;
  }

  /** `float()` of a decimal "a.b" is a plus the fraction b / 10^k, where b
      has k digits (underscores in a and b ignored). */
  lemma ParseFloatDecimal(a: string, b: string)
    requires DigitRun(a) && DigitRun(b)
    ensures ParseFloat(a + "." + b)
         == Some(Finite(DigitsValue(a) as real + Fraction(b)))
  {
    DecimalValue(a, b);
    var body := a + "." + b;
    assert body[0] == a[0] && body[|body| - 1] == b[|b| - 1];
    UnsignedFloat(body, DigitsValue(a) as real + Fraction(b));
  }

  /** `float()` of "-a.b" is minus the value of "a.b". */
  lemma ParseFloatNegativeDecimal(a: string, b: string)
    requires DigitRun(a) && DigitRun(b)
    ensures ParseFloat("-" + (a + "." + b))
         == Some(Finite(-(DigitsValue(a) as real + Fraction(b))))
  {
    DecimalValue(a, b);
    var body := a + "." + b;
    assert body[0] == a[0] && body[|body| - 1] == b[|b| - 1];
    NegativeFloat(body, DigitsValue(a) as real + Fraction(b));
  }

  lemma UnsignedFloat(body: string, v: real)
    requires body != [] && IsDigit(body[0]) && IsDigit(body[|body| - 1])
    requires ParseDecimal(body) == Some(v)
    ensures ParseFloat(body) == Some(Finite(v))
  {
    StripNoSpace(body);
    NumericBody(body, false, body, v);
  }

  lemma NegativeFloat(body: string, v: real)
    requires body != [] && IsDigit(body[0]) && IsDigit(body[|body| - 1])
    requires ParseDecimal(body) == Some(v)
    ensures ParseFloat("-" + body) == Some(Finite(-v))
  {
    SignedBody(body);
    NumericBody("-" + body, true, body, v);
  }

  lemma SignedBody(body: string)
    requires body != [] && IsDigit(body[0]) && IsDigit(body[|body| - 1])
    ensures SplitSign(Strip("-" + body)) == (true, body)
  {
    var s := "-" + body;
    StripNoSpace(s);
    assert s[1..] == body;
  }


  /** A separator absent from both parts splits a joined pair uniquely. */
  lemma SeparatedPair(a: string, b: string, c: string, d: string, sep: char)
    requires sep !in a && sep !in b && sep !in c && sep !in d
    requires a + [sep] + b == c + [sep] + d
    ensures a == c && b == d
  {
    SplitPair(a, b, sep);
    SplitPair(c, d, sep);
  }
}
