/**
 * The string primitives the pipeline relies on: Python's `str.strip()` and
 * `str.lower()` (on ASCII), `sep.join(xs)`, and the decimal rendering `str(n)`
 * of a non-negative integer.
 */
module Text {

  /** Python's `str.isspace` on ASCII: tab, line feed, vertical tab, form feed,
      carriage return, the four information separators 0x1C-0x1F, and space. */
  predicate IsSpace(c: char) {
    9 <= c as int <= 13 || 28 <= c as int <= 32
  }

  predicate AllSpace(s: string) {
    forall i :: 0 <= i < |s| ==> IsSpace(s[i])
  }

  /** True when `needle` appears in `hay` starting at index `at`. */
  predicate OccursAt(needle: string, hay: string, at: nat) {
    at + |needle| <= |hay| && hay[at..at + |needle|] == needle
  }

  /** An occurrence stays an occurrence when text is added around it. */
  lemma OccursInContext(needle: string, a: string, hay: string, b: string, at: nat)
    requires OccursAt(needle, hay, at)
    ensures OccursAt(needle, a + hay + b, |a| + at)
  {
    assert (a + hay + b)[|a| + at..|a| + at + |needle|] == hay[at..at + |needle|];
  }

  /** An occurrence of `x + y` is an occurrence of `x` followed by one of `y`. */
  lemma OccursSplit(x: string, y: string, hay: string, at: nat)
    requires OccursAt(x + y, hay, at)
    ensures OccursAt(x, hay, at) && OccursAt(y, hay, at + |x|)
  {
    assert hay[at..at + |x|] == (x + y)[..|x|];
    assert hay[at + |x|..at + |x| + |y|] == (x + y)[|x|..];
  }

  // ---------------------------------------------------------------------------
  // str.strip()
  // ---------------------------------------------------------------------------

  /** Drops leading whitespace. */
  function StripLeft(s: string): string {
    if |s| > 0 && IsSpace(s[0]) then StripLeft(s[1..]) else s
  }

  /** Drops trailing whitespace. */
  function StripRight(s: string): string {
    if |s| > 0 && IsSpace(s[|s| - 1]) then StripRight(s[..|s| - 1]) else s
  }

  /** Python's `s.strip()` with no argument. */
  function Strip(s: string): string {
    StripRight(StripLeft(s))
  }

  /** `StripLeft` keeps the longest suffix of `s` that does not start with
      whitespace, and drops only whitespace. */
  lemma {:induction false} StripLeftSpec(s: string)
    ensures |StripLeft(s)| <= |s| && StripLeft(s) == s[|s| - |StripLeft(s)|..]
    ensures AllSpace(s[..|s| - |StripLeft(s)|])
    ensures |StripLeft(s)| > 0 ==> !IsSpace(StripLeft(s)[0])
  {
    if |s| > 0 && IsSpace(s[0]) {
      StripLeftSpec(s[1..]);
      var r := StripLeft(s);
      assert s[..|s| - |r|] == [s[0]] + s[1..][..|s| - 1 - |r|];
    }
  }

  /** `StripRight` keeps the longest prefix of `s` that does not end with
      whitespace, and drops only whitespace. */
  lemma {:induction false} StripRightSpec(s: string)
    ensures |StripRight(s)| <= |s| && StripRight(s) == s[..|StripRight(s)|]
    ensures AllSpace(s[|StripRight(s)|..])
    ensures |StripRight(s)| > 0 ==> !IsSpace(StripRight(s)[|StripRight(s)| - 1])
  {
    if |s| > 0 && IsSpace(s[|s| - 1]) {
      StripRightSpec(s[..|s| - 1]);
      var r := StripRight(s);
      assert s[|r|..] == s[..|s| - 1][|r|..] + [s[|s| - 1]];
    }
  }

  /** A stripped string neither starts nor ends with whitespace. */
  lemma StripEnds(s: string)
    ensures |Strip(s)| <= |s|
    ensures |Strip(s)| > 0 ==> !IsSpace(Strip(s)[0]) && !IsSpace(Strip(s)[|Strip(s)| - 1])
  {
    StripLeftSpec(s);
    StripRightSpec(StripLeft(s));
  }

  /** Every string is its stripped form padded by whitespace on both sides. */
  lemma StripDecomposes(s: string) returns (before: string, after: string)
    ensures AllSpace(before) && AllSpace(after)
    ensures s == before + Strip(s) + after
  {
    StripLeftSpec(s);
    var l := StripLeft(s);
    StripRightSpec(l);
    var r := StripRight(l);
    before := s[..|s| - |l|];
    after := l[|r|..];
    assert l == r + after;
    assert s == before + l;
  }

  /** Stripping a string padded by whitespace gives back exactly the padded
      core, provided the core neither starts nor ends with whitespace. */
  lemma {:induction false} StripPadded(before: string, core: string, after: string)
    requires AllSpace(before) && AllSpace(after)
    requires |core| > 0 ==> !IsSpace(core[0]) && !IsSpace(core[|core| - 1])
    ensures Strip(before + core + after) == core
  {
    if |core| == 0 {
      assert before + core + after == before + after;
      AllSpaceConcat(before, after);
      StripAllSpace(before + after);
    } else {
      assert before + core + after == before + (core + after);
      StripLeftPadded(before, core + after);
      StripRightPadded(core, after);
    }
  }

  lemma AllSpaceConcat(a: string, b: string)
    requires AllSpace(a) && AllSpace(b)
    ensures AllSpace(a + b)
  {
    assert forall i :: |a| <= i < |a + b| ==> (a + b)[i] == b[i - |a|];
  }

  lemma StripAllSpace(s: string)
    requires AllSpace(s)
    ensures Strip(s) == ""
  {
    StripLeftSpec(s);
  }

  lemma {:induction false} StripLeftPadded(before: string, rest: string)
    requires AllSpace(before)
    requires |rest| > 0 ==> !IsSpace(rest[0])
    ensures StripLeft(before + rest) == rest
  {
    if |before| > 0 {
      assert (before + rest)[1..] == before[1..] + rest;
      StripLeftPadded(before[1..], rest);
    } else {
      assert before + rest == rest;
    }
  }

  lemma {:induction false} StripRightPadded(core: string, after: string)
    requires AllSpace(after)
    requires |core| > 0 && !IsSpace(core[|core| - 1])
    ensures StripRight(core + after) == core
  {
    if |after| > 0 {
      assert (core + after)[..|core + after| - 1] == core + after[..|after| - 1];
      StripRightPadded(core, after[..|after| - 1]);
    } else {
      assert core + after == core;
    }
  }

  /** A string strips to "" exactly when it consists of whitespace only. */
  lemma StripEmptyIffAllSpace(s: string)
    ensures Strip(s) == "" <==> AllSpace(s)
  {
    if AllSpace(s) {
      StripPadded(s, "", "");
      assert s + "" + "" == s;
    } else {
      var before, after := StripDecomposes(s);
    }
  }

  // ---------------------------------------------------------------------------
  // str.lower()
  // ---------------------------------------------------------------------------

  /** ASCII lower-casing of one character; every other character is kept. */
  function LowerChar(c: char): char {
    if 'A' <= c <= 'Z' then (c as int + 32) as char else c
  }

  /** Python's `s.lower()`, restricted to ASCII letters. */
  function Lower(s: string): (r: string)
    ensures |r| == |s|
  {
    seq(|s|, i requires 0 <= i < |s| => LowerChar(s[i]))
  }

  /** True when `s` is `word` written with any mix of upper and lower case:
      each character is the word's own, or the upper-case ASCII counterpart
      of a lower-case letter of the word. */
  predicate CaseVariant(s: string, word: string) {
    && |s| == |word|
    && forall i :: 0 <= i < |s| ==>
         s[i] == word[i] || ('a' <= word[i] <= 'z' && s[i] as int == word[i] as int - 32)
  }

  predicate NoUpperCase(word: string) {
    forall i :: 0 <= i < |word| ==> !('A' <= word[i] <= 'Z')
  }

  /** For a word without upper-case letters, lower-casing a string gives the
      word exactly when the string is the word in some mix of cases. */
  lemma LowerIsCaseVariant(s: string, word: string)
    requires NoUpperCase(word)
    ensures Lower(s) == word <==> CaseVariant(s, word)
  {
    if Lower(s) == word {
      forall i | 0 <= i < |s|
        ensures s[i] == word[i] || ('a' <= word[i] <= 'z' && s[i] as int == word[i] as int - 32)
      {
        assert LowerChar(s[i]) == word[i];
      }
    }
    if CaseVariant(s, word) {
      forall i | 0 <= i < |s|
        ensures Lower(s)[i] == word[i]
      {
        assert !('A' <= word[i] <= 'Z');
      }
    }
  }

  // ---------------------------------------------------------------------------
  // sep.join(xs)
  // ---------------------------------------------------------------------------

  /** Python's `sep.join(xs)`: the items in order, `sep` between neighbours. */
  function Join(sep: string, xs: seq<string>): (r: string)
    decreases |xs|
  {
    if |xs| == 0 then ""
    else if |xs| == 1 then xs[0]
    else Join(sep, xs[..|xs| - 1]) + sep + xs[|xs| - 1]
  }

  /** Sum of the item lengths. */
  function TotalLength(xs: seq<string>): nat {
    if |xs| == 0 then 0 else TotalLength(xs[..|xs| - 1]) + |xs[|xs| - 1]|
  }

  /** The joined string holds every item character once and one separator
      between each pair of neighbours. */
  lemma {:induction false} JoinLength(sep: string, xs: seq<string>)
    requires |xs| > 0
    ensures |Join(sep, xs)| == TotalLength(xs) + (|xs| - 1) * |sep|
  {
    var n := |xs|;
    if n > 1 {
      JoinLength(sep, xs[..n - 1]);
      assert (n - 2) * |sep| + |sep| == (n - 1) * |sep|;
    }
  }

  /** Joining a prefix of the items gives a prefix of the joined string. */
  lemma {:induction false} JoinPrefix(sep: string, xs: seq<string>, k: nat)
    requires 0 < k <= |xs|
    ensures Join(sep, xs[..k]) <= Join(sep, xs)
    decreases |xs|
  {
    if k < |xs| {
      var init := xs[..|xs| - 1];
      assert init[..k] == xs[..k];
      JoinPrefix(sep, init, k);
    } else {
      assert xs[..k] == xs;
    }
  }

  /** Where item `i` begins inside `Join(sep, xs)`. */
  function JoinOffset(sep: string, xs: seq<string>, i: nat): nat
    requires i < |xs|
  {
    if i == 0 then 0 else |Join(sep, xs[..i])| + |sep|
  }

  /** Every item occurs verbatim in the joined string at its offset, and the
      items appear in their input order without overlapping: item `i` ends, and
      a separator follows, before item `i + 1` begins. */
  lemma {:induction false} JoinPlacesItems(sep: string, xs: seq<string>, i: nat)
    requires i < |xs|
    ensures OccursAt(xs[i], Join(sep, xs), JoinOffset(sep, xs, i))
    ensures i + 1 < |xs| ==>
              JoinOffset(sep, xs, i) + |xs[i]| + |sep| == JoinOffset(sep, xs, i + 1)
              && OccursAt(sep, Join(sep, xs), JoinOffset(sep, xs, i) + |xs[i]|)
  {
    var upto := xs[..i + 1];
    JoinPrefix(sep, xs, i + 1);
    assert upto[..i] == xs[..i];
    var whole := Join(sep, xs);
    var part := Join(sep, upto);
    if i == 0 {
      assert part == xs[0];
    } else {
      assert part == Join(sep, xs[..i]) + sep + xs[i];
    }
    assert |part| == JoinOffset(sep, xs, i) + |xs[i]|;
    assert whole[JoinOffset(sep, xs, i)..|part|] == part[JoinOffset(sep, xs, i)..];
    if i + 1 < |xs| {
      var next := xs[..i + 2];
      JoinPrefix(sep, xs, i + 2);
      assert next[..i + 1] == upto;
      assert Join(sep, next) == part + sep + xs[i + 1];
      assert whole[|part|..|part| + |sep|] == Join(sep, next)[|part|..|part| + |sep|];
    }
  }

  // ---------------------------------------------------------------------------
  // str(n) for n >= 0
  // ---------------------------------------------------------------------------

  function DigitChar(d: nat): char
    requires d < 10
  {
    ('0' as int + d) as char
  }

  predicate IsDigit(c: char) {
    '0' <= c <= '9'
  }

  function DigitValue(c: char): nat
    requires IsDigit(c)
  {
    c as int - '0' as int
  }

  /** Python's `str(n)` for a non-negative integer: its decimal digits, most
      significant first, without leading zeros. */
  function DecimalString(n: nat): (r: string)
    ensures |r| > 0
    ensures forall i :: 0 <= i < |r| ==> IsDigit(r[i])
    ensures |r| > 1 ==> r[0] != '0'
  {
    if n < 10 then [DigitChar(n)] else DecimalString(n / 10) + [DigitChar(n % 10)]
  }

  /** The number a string of decimal digits denotes. */
  function DecimalValue(s: string): nat
    requires forall i :: 0 <= i < |s| ==> IsDigit(s[i])
  {
    if |s| == 0 then 0
    else DecimalValue(s[..|s| - 1]) * 10 + DigitValue(s[|s| - 1])
  }

  /** Reading back the decimal rendering of `n` gives `n`. */
  lemma {:induction false} DecimalRoundTrip(n: nat)
    ensures DecimalValue(DecimalString(n)) == n
  {
    var s := DecimalString(n);
    if n >= 10 {
      DecimalRoundTrip(n / 10);
      assert s[..|s| - 1] == DecimalString(n / 10);
    }
  }

  /** Distinct numbers have distinct decimal renderings. */
  lemma DecimalInjective(a: nat, b: nat)
    requires DecimalString(a) == DecimalString(b)
    ensures a == b
  {
    DecimalRoundTrip(a);
    DecimalRoundTrip(b);
  }
}
