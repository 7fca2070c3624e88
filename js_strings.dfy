/** The string operations of the JavaScript runtime that the catalog code calls:
    `trim`, `toLowerCase`, `includes`, and decimal digit strings.
    A `string` here is a sequence of Unicode scalar values. */
module JsStrings {

  /** The WhiteSpace and LineTerminator code points of ECMAScript, which is the
      set `String.prototype.trim` removes from both ends. */
  predicate IsWhitespace(c: char) {
    || c == ' ' || c == '\t' || c == '\n' || c == '\r'
    || c == '\U{000B}' || c == '\U{000C}' || c == '\U{00A0}' || c == '\U{1680}'
    || ('\U{2000}' <= c <= '\U{200A}')
    || c == '\U{2028}' || c == '\U{2029}' || c == '\U{202F}' || c == '\U{205F}'
    || c == '\U{3000}' || c == '\U{FEFF}'
  }

  predicate AllWhitespace(s: string) {
    forall i | 0 <= i < |s| :: IsWhitespace(s[i])
  }

  /** Drops leading whitespace (see TrimStartSpec). */
  function TrimStart(s: string): string {
    if s != [] && IsWhitespace(s[0]) then TrimStart(s[1..]) else s
  }

  /** Drops trailing whitespace (see TrimEndSpec). */
  function TrimEnd(s: string): string {
    if s != [] && IsWhitespace(s[|s| - 1]) then TrimEnd(s[..|s| - 1]) else s
  }

  /** `TrimStart(s)` is a suffix of `s`, everything dropped is whitespace, and
      the result does not start with whitespace. */
  lemma {:induction false} TrimStartSpec(s: string)
    ensures |TrimStart(s)| <= |s| && TrimStart(s) == s[|s| - |TrimStart(s)|..]
    ensures AllWhitespace(s[..|s| - |TrimStart(s)|])
    ensures TrimStart(s) == [] || !IsWhitespace(TrimStart(s)[0])
  {
    if s != [] && IsWhitespace(s[0]) {
      TrimStartSpec(s[1..]);
      var n := |s| - |TrimStart(s)|;
      assert s[..n] == [s[0]] + s[1..][..n - 1];
    }
  }

  /** `TrimEnd(s)` is a prefix of `s`, everything dropped is whitespace, and
      the result does not end with whitespace. */
  lemma {:induction false} TrimEndSpec(s: string)
    ensures |TrimEnd(s)| <= |s| && TrimEnd(s) == s[..|TrimEnd(s)|]
    ensures AllWhitespace(s[|TrimEnd(s)|..])
    ensures TrimEnd(s) == [] || !IsWhitespace(TrimEnd(s)[|TrimEnd(s)| - 1])
  {
    if s != [] && IsWhitespace(s[|s| - 1]) {
      var p := s[..|s| - 1];
      TrimEndSpec(p);
      var n := |TrimEnd(s)|;
      assert s[n..] == p[n..] + [s[|s| - 1]];
    }
  }

  /** `s.trim()`: the slice of `s` left after whitespace is removed at both ends. */
  function Trim(s: string): (r: string)
    ensures exists i :: 0 <= i <= |s| - |r| && r == s[i..i + |r|]
                        && AllWhitespace(s[..i]) && AllWhitespace(s[i + |r|..])
    ensures r == [] || (!IsWhitespace(r[0]) && !IsWhitespace(r[|r| - 1]))
    ensures r == [] <==> AllWhitespace(s)
  {
    var t := TrimStart(s);
    var r := TrimEnd(t);
    TrimStartSpec(s);
    TrimEndSpec(t);
    var i := |s| - |t|;
    assert t == s[i..];
    assert r == s[i..i + |r|];
    assert s[i + |r|..] == t[|r|..];
    assert r != [] ==> r[0] == t[0];
    assert r == [] ==> s == s[..i] + t && t == t[|r|..];
    r
  }

  /** ASCII part of `toLowerCase`: 'A'..'Z' become 'a'..'z', every other character stays. */
  function LowerChar(c: char): char {
    if 'A' <= c <= 'Z' then (c as int + 32) as char else c
  }

  function UpperChar(c: char): char {
    if 'a' <= c <= 'z' then (c as int - 32) as char else c
  }

  /** `s.toLowerCase()`, restricted to the ASCII letters. */
  function Lower(s: string): string {
    seq(|s|, i requires 0 <= i < |s| => LowerChar(s[i]))
  }

  /** `s.toUpperCase()`, restricted to the ASCII letters. */
  function Upper(s: string): string {
    seq(|s|, i requires 0 <= i < |s| => UpperChar(s[i]))
  }

  /** `t` occurs in `s` starting at index `i`. */
  predicate OccursAt(s: string, t: string, i: int) {
    0 <= i && i + |t| <= |s| && s[i..i + |t|] == t
  }

  /** `s.includes(t)`: `t` occurs in `s` at some position. */
  function Includes(s: string, t: string): (b: bool)
    ensures b <==> exists i :: OccursAt(s, t, i)
  {
    if |t| > |s| then false
    else if s[..|t|] == t then assert OccursAt(s, t, 0); true
    else
      assert forall i :: OccursAt(s, t, i) ==> i >= 1 && OccursAt(s[1..], t, i - 1);
      assert forall i :: OccursAt(s[1..], t, i) ==> OccursAt(s, t, i + 1);
      Includes(s[1..], t)
  }

  lemma IncludesMiddle(a: string, t: string, b: string)
    ensures Includes(a + t + b, t)
  {
    assert OccursAt(a + t + b, t, |a|);
  }

  lemma {:induction false} TrimStartSkipsWhitespace(w: string, x: string)
    requires AllWhitespace(w)
    ensures TrimStart(w + x) == TrimStart(x)
  {
    if w != [] {
      assert (w + x)[0] == w[0] && IsWhitespace(w[0]);
      assert (w + x)[1..] == w[1..] + x;
      assert AllWhitespace(w[1..]);
      TrimStartSkipsWhitespace(w[1..], x);
    } else {
      assert w + x == x;
    }
  }

  lemma {:induction false} TrimEndSkipsWhitespace(x: string, w: string)
    requires AllWhitespace(w)
    ensures TrimEnd(x + w) == TrimEnd(x)
  {
    if w != [] {
      assert (x + w)[|x + w| - 1] == w[|w| - 1];
      assert (x + w)[..|x + w| - 1] == x + w[..|w| - 1];
      assert AllWhitespace(w[..|w| - 1]);
      TrimEndSkipsWhitespace(x, w[..|w| - 1]);
    } else {
      assert x + w == x;
    }
  }

  /** Trailing whitespace survives `TrimStart` unless the whole string is blank. */
  lemma {:induction false} TrimStartAppendWhitespace(x: string, w: string)
    requires AllWhitespace(w)
    ensures TrimStart(x + w) == if TrimStart(x) == [] then [] else TrimStart(x) + w
  {
    if x == [] {
      assert x + w == w;
      TrimStartSkipsWhitespace(w, []);
      assert w + [] == w;
    } else if IsWhitespace(x[0]) {
      assert (x + w)[1..] == x[1..] + w;
      TrimStartAppendWhitespace(x[1..], w);
    }
  }

  /** Whitespace padding on either side does not change the trimmed text. */
  lemma TrimIgnoresPadding(w1: string, x: string, w2: string)
    requires AllWhitespace(w1) && AllWhitespace(w2)
    ensures Trim(w1 + x + w2) == Trim(x)
  {
    assert w1 + x + w2 == w1 + (x + w2);
    TrimStartSkipsWhitespace(w1, x + w2);
    TrimStartAppendWhitespace(x, w2);
    if TrimStart(x) != [] {
      TrimEndSkipsWhitespace(TrimStart(x), w2);
    }
  }

  lemma UpperKeepsWhitespace(c: char)
    ensures IsWhitespace(UpperChar(c)) == IsWhitespace(c)
  {
  }

  lemma {:induction false} TrimStartCommutesWithUpper(s: string)
    ensures TrimStart(Upper(s)) == Upper(TrimStart(s))
  {
    if s != [] {
      UpperKeepsWhitespace(s[0]);
      assert Upper(s)[0] == UpperChar(s[0]);
      assert Upper(s)[1..] == Upper(s[1..]);
      TrimStartCommutesWithUpper(s[1..]);
    }
  }

  lemma {:induction false} TrimEndCommutesWithUpper(s: string)
    ensures TrimEnd(Upper(s)) == Upper(TrimEnd(s))
  {
    if s != [] {
      UpperKeepsWhitespace(s[|s| - 1]);
      assert Upper(s)[|s| - 1] == UpperChar(s[|s| - 1]);
      assert Upper(s)[..|s| - 1] == Upper(s[..|s| - 1]);
      TrimEndCommutesWithUpper(s[..|s| - 1]);
    }
  }

  /** Upper-casing first and then trimming, lower-casing gives the same text as
      trimming and lower-casing the original. */
  lemma CaseAndPaddingInsensitive(w1: string, t: string, w2: string)
    requires AllWhitespace(w1) && AllWhitespace(w2)
    ensures Lower(Trim(w1 + Upper(t) + w2)) == Lower(Trim(t))
  {
    TrimIgnoresPadding(w1, Upper(t), w2);
    TrimStartCommutesWithUpper(t);
    TrimEndCommutesWithUpper(TrimStart(t));
  }

  // Decimal digit strings.

  predicate IsDigit(c: char) { '0' <= c <= '9' }

  /** A non-empty run of decimal digits. */
  predicate IsDigits(s: string) {
    |s| > 0 && forall i | 0 <= i < |s| :: IsDigit(s[i])
  }

  function DigitValue(c: char): nat
    requires IsDigit(c)
  {
    c as int - '0' as int
  }

  function DigitChar(d: nat): char
    requires d < 10
  {
    ('0' as int + d) as char
  }

  /** The value of a digit string, most significant digit first. */
  function DigitsValue(s: string): nat
    requires forall i | 0 <= i < |s| :: IsDigit(s[i])
  {
    if s == [] then 0
    else DigitsValue(s[..|s| - 1]) * 10 + DigitValue(s[|s| - 1])
  }

  /** The shortest decimal representation of `n`: no leading zero. */
  function DecimalDigits(n: nat): (r: string)
    ensures IsDigits(r)
    ensures DigitsValue(r) == n
    ensures n == 0 || r[0] != '0'
  {
    if n < 10 then [DigitChar(n)]
    else
      var r := DecimalDigits(n / 10) + [DigitChar(n % 10)];
      assert r[..|r| - 1] == DecimalDigits(n / 10);
      r
  }
}
