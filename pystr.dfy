/** The handful of Python `str` operations the analysis scripts rely on: `strip`,
    `lstrip` and `rstrip` with a character-set argument, `split` and `join` on a
    one-character separator, `endswith`, and `str` of a non-negative integer.
    A `chars` argument is the string passed to Python's strip methods: it is read
    as the SET of its characters, not as a prefix or suffix. */
module PyStr {

  /** Every character of `s` is one of `chars`. */
  predicate AllIn(s: string, chars: string) {
    forall i :: 0 <= i < |s| ==> s[i] in chars
  }

  /** Python `s.lstrip(chars)`: drops leading characters while they are in
      `chars`. */
  function LStrip(s: string, chars: string): string
    decreases |s|
  {
    if s != [] && s[0] in chars then LStrip(s[1..], chars) else s
  }

  /** Python `s.rstrip(chars)`: drops trailing characters while they are in
      `chars`. */
  function RStrip(s: string, chars: string): string
    decreases |s|
  {
    if s != [] && s[|s| - 1] in chars then RStrip(s[..|s| - 1], chars) else s
  }

  /** Python `s.strip(chars)`: both runs are removed. */
  function Strip(s: string, chars: string): string {
    RStrip(LStrip(s, chars), chars)
  }

  /** `lstrip` removes the LONGEST prefix made only of characters in `chars`:
      what it leaves is a suffix of `s`, everything before it is strippable, and
      it is empty or starts with a character that is not. */
  lemma {:induction false} LStripRemovesLongestPrefix(s: string, chars: string)
    ensures |LStrip(s, chars)| <= |s| && LStrip(s, chars) == s[|s| - |LStrip(s, chars)|..]
    ensures AllIn(s[..|s| - |LStrip(s, chars)|], chars)
    ensures LStrip(s, chars) == [] || LStrip(s, chars)[0] !in chars
    decreases |s|
  {
    if s != [] && s[0] in chars {
      LStripRemovesLongestPrefix(s[1..], chars);
      var r := LStrip(s[1..], chars);
      assert s[..|s| - |r|] == [s[0]] + s[1..][..|s| - 1 - |r|];
    }
  }

  /** `rstrip` removes the LONGEST suffix made only of characters in `chars`:
      what it leaves is a prefix of `s`, everything after it is strippable, and
      it is empty or ends with a character that is not. */
  lemma {:induction false} RStripRemovesLongestSuffix(s: string, chars: string)
    ensures RStrip(s, chars) <= s
    ensures AllIn(s[|RStrip(s, chars)|..], chars)
    ensures RStrip(s, chars) == [] || RStrip(s, chars)[|RStrip(s, chars)| - 1] !in chars
    decreases |s|
  {
    if s != [] && s[|s| - 1] in chars {
      var p := s[..|s| - 1];
      RStripRemovesLongestSuffix(p, chars);
      var r := RStrip(p, chars);
      assert s[|r|..] == p[|r|..] + [s[|s| - 1]];
    }
  }

  /** `r` is the slice of `s` starting at `i`, with only characters of `chars`
      before and after it. */
  predicate SurroundedBy(s: string, r: string, i: int, chars: string) {
    0 <= i <= |s| - |r| && r == s[i..i + |r|]
    && AllIn(s[..i], chars) && AllIn(s[i + |r|..], chars)
  }

  /** `strip` leaves a slice of `s` surrounded only by characters of `chars`,
      neither of whose ends is one of them; a string made only of such
      characters strips to "". */
  lemma StripRemovesBothRuns(s: string, chars: string)
    ensures exists i :: SurroundedBy(s, Strip(s, chars), i, chars)
    ensures Strip(s, chars) == []
            || (Strip(s, chars)[0] !in chars && Strip(s, chars)[|Strip(s, chars)| - 1] !in chars)
    ensures AllIn(s, chars) ==> Strip(s, chars) == []
  {
    var l := LStrip(s, chars);
    var r := RStrip(l, chars);
    LStripRemovesLongestPrefix(s, chars);
    RStripRemovesLongestSuffix(l, chars);
    var i := |s| - |l|;
    assert Strip(s, chars) == r;
    assert l == s[i..] && r == l[..|r|];
    assert r == s[i..i + |r|];
    assert s[i + |r|..] == l[|r|..];
    assert SurroundedBy(s, r, i, chars);
    assert l != [] ==> l[0] == s[i] && s[i] !in chars;
    assert r != [] ==> r[0] == l[0];
  }

  /** Strippable characters in front of `s` do not change what `lstrip` leaves. */
  lemma {:induction false} LStripSkipsHead(p: string, s: string, chars: string)
    requires AllIn(p, chars)
    ensures LStrip(p + s, chars) == LStrip(s, chars)
    decreases |p|
  {
    if p != [] {
      assert (p + s)[0] == p[0] && p[0] in chars;
      assert (p + s)[1..] == p[1..] + s;
      LStripSkipsHead(p[1..], s, chars);
    } else {
      assert p + s == s;
    }
  }

  /** Strippable characters after `s` do not change what `rstrip` leaves. */
  lemma {:induction false} RStripSkipsTail(s: string, t: string, chars: string)
    requires AllIn(t, chars)
    ensures RStrip(s + t, chars) == RStrip(s, chars)
    decreases |t|
  {
    if t != [] {
      assert (s + t)[|s + t| - 1] == t[|t| - 1] && t[|t| - 1] in chars;
      assert (s + t)[..|s + t| - 1] == s + t[..|t| - 1];
      RStripSkipsTail(s, t[..|t| - 1], chars);
    } else {
      assert s + t == s;
    }
  }

  /** `strip` removes exactly the strippable runs around a word that neither
      starts nor ends with one of `chars`. */
  lemma StripAround(p: string, w: string, q: string, chars: string)
    requires AllIn(p, chars) && AllIn(q, chars)
    requires w == [] || (w[0] !in chars && w[|w| - 1] !in chars)
    ensures Strip(p + w + q, chars) == w
  {
    assert p + w + q == p + (w + q);
    LStripSkipsHead(p, w + q, chars);
    if w == [] {
      assert w + q == q;
      LStripRemovesLongestPrefix(q, chars);
    } else {
      assert (w + q)[0] == w[0];
      assert LStrip(w + q, chars) == w + q;
      RStripSkipsTail(w, q, chars);
    }
  }

  /** Python `s.endswith(suffix)`. */
  predicate EndsWith(s: string, suffix: string) {
    |suffix| <= |s| && s[|s| - |suffix|..] == suffix
  }

  /** Number of occurrences of `c` in `s`. */
  function CountChar(s: string, c: char): nat {
    if s == [] then 0 else (if s[0] == c then 1 else 0) + CountChar(s[1..], c)
  }

  /** Python `sep.join(parts)` for a one-character separator. */
  function Join(parts: seq<string>, sep: char): string {
    if |parts| == 0 then []
    else if |parts| == 1 then parts[0]
    else parts[0] + [sep] + Join(parts[1..], sep)
  }

  /** Python `s.split(sep)` for a one-character separator: always at least one
      piece, one more piece than there are separators, no piece holds the
      separator, and joining the pieces back gives `s`. */
  function Split(s: string, sep: char): (parts: seq<string>)
    ensures |parts| == CountChar(s, sep) + 1
    ensures forall i :: 0 <= i < |parts| ==> sep !in parts[i]
    ensures Join(parts, sep) == s
  {
    if s == [] then [[]]
    else
      var rest := Split(s[1..], sep);
      if s[0] == sep then [[]] + rest
      else
        assert s == [s[0]] + s[1..];
        [[s[0]] + rest[0]] + rest[1..]
  }

  /** A separator-free prefix joins the first piece of what follows it. */
  lemma {:induction false} SplitAfterPlainPrefix(p: string, s: string, sep: char)
    requires sep !in p
    ensures Split(p + s, sep) == [p + Split(s, sep)[0]] + Split(s, sep)[1..]
    decreases |p|
  {
    if p != [] {
      var rest := Split(s, sep);
      assert (p + s)[0] == p[0] != sep;
      assert (p + s)[1..] == p[1..] + s;
      SplitAfterPlainPrefix(p[1..], s, sep);
      assert [p[0]] + (p[1..] + rest[0]) == p + rest[0];
    } else {
      var rest := Split(s, sep);
      assert p + s == s;
      assert [] + rest[0] == rest[0];
      assert rest == [rest[0]] + rest[1..];
    }
  }

  /** `split` undoes `join` when no piece holds the separator. */
  lemma {:induction false} SplitJoin(parts: seq<string>, sep: char)
    requires |parts| >= 1
    requires forall i :: 0 <= i < |parts| ==> sep !in parts[i]
    ensures Split(Join(parts, sep), sep) == parts
  {
    if |parts| == 1 {
      SplitAfterPlainPrefix(parts[0], [], sep);
      assert parts[0] + [] == parts[0];
    } else {
      var rest := Join(parts[1..], sep);
      SplitJoin(parts[1..], sep);
      assert Split([sep] + rest, sep) == [[]] + parts[1..] by {
        assert ([sep] + rest)[1..] == rest;
      }
      assert Join(parts, sep) == parts[0] + ([sep] + rest);
      SplitAfterPlainPrefix(parts[0], [sep] + rest, sep);
      assert parts[0] + [] == parts[0];
      assert parts == [parts[0]] + parts[1..];
    }
  }

  /** The decimal digit for 0 <= d < 10. */
  function Digit(d: nat): char
    requires d < 10
  {
    "0123456789"[d]
  }

  /** Python `str(n)` for a non-negative integer: decimal digits only, never
      empty, no leading zero. */
  function DecimalString(n: nat): (s: string)
    ensures |s| >= 1
    ensures forall i :: 0 <= i < |s| ==> '0' <= s[i] <= '9'
    ensures |s| > 1 ==> s[0] != '0'
  {
    if n < 10 then [Digit(n)] else DecimalString(n / 10) + [Digit(n % 10)]
  }

  /** The value of a decimal digit character. */
  function DigitValue(c: char): int {
    c as int - '0' as int
  }

  /** The number a string of decimal digits denotes, read left to right
      (Horner's rule: each further digit multiplies what came before by ten). */
  function DigitsValue(s: string): int {
    if s == [] then 0 else 10 * DigitsValue(s[..|s| - 1]) + DigitValue(s[|s| - 1])
  }

  lemma DigitValueOfDigit(d: nat)
    requires d < 10
    ensures DigitValue(Digit(d)) == d
  {
  }

  /** The digits `str(n)` writes denote `n`. */
  lemma {:induction false} DecimalStringValue(n: nat)
    ensures DigitsValue(DecimalString(n)) == n
  {
    if n < 10 {
      DigitValueOfDigit(n);
      assert [Digit(n)][..0] == [];
    } else {
      var s := DecimalString(n);
      DecimalStringValue(n / 10);
      DigitValueOfDigit(n % 10);
      assert s[..|s| - 1] == DecimalString(n / 10);
    }
  }
}
