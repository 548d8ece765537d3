/**
 * The few Python `str` built-ins the command parsers rely on, written out
 * over Dafny strings (sequences of Unicode scalar values): `isspace`,
 * `strip()`, `split()`, `split(sep)`, `lower()`, `startswith`,
 * `replace(pat, '')` and `int(word)`.
 */
module PyStrings {
  import opened Wrappers

  /** `c.isspace()`: the characters Python treats as whitespace. */
  predicate IsSpace(c: char) {
    || c == ' '
    || '\t' <= c <= '\r'
    || '\U{1C}' <= c <= '\U{1F}'
    || c == '\U{85}' || c == '\U{A0}' || c == '\U{1680}'
    || '\U{2000}' <= c <= '\U{200A}'
    || c == '\U{2028}' || c == '\U{2029}' || c == '\U{202F}' || c == '\U{205F}' || c == '\U{3000}'
  }

  predicate AllSpace(s: string) {
    forall i :: 0 <= i < |s| ==> IsSpace(s[i])
  }

  predicate NoSpace(s: string) {
    forall i :: 0 <= i < |s| ==> !IsSpace(s[i])
  }

  /** A token `split()` can produce: non-empty, without whitespace. */
  predicate IsWord(s: string) {
    s != [] && NoSpace(s)
  }

  // ---------------------------------------------------------------------------
  // strip()

  /** `s.lstrip()`: `s` without its leading whitespace. */
  function StripStart(s: string): (r: string)
    ensures |r| <= |s|
    ensures r == [] || !IsSpace(r[0])
  {
    if s != [] && IsSpace(s[0]) then StripStart(s[1..]) else s
  }

  /** `s.lstrip()` drops a run of whitespace from the front and nothing else. */
  lemma {:induction false} StripStartIsSuffix(s: string)
    ensures var r := StripStart(s);
      r == s[|s| - |r|..] && AllSpace(s[..|s| - |r|])
  {
    if s != [] && IsSpace(s[0]) {
      StripStartIsSuffix(s[1..]);
      var r := StripStart(s);
      assert s[1..][|s| - 1 - |r|..] == s[|s| - |r|..];
      assert s[..|s| - |r|] == [s[0]] + s[1..][..|s| - 1 - |r|];
    }
  }

  /** `s.rstrip()`: `s` without its trailing whitespace. */
  function StripEnd(s: string): (r: string)
    ensures |r| <= |s|
    ensures r == [] || !IsSpace(r[|r| - 1])
  {
    if s != [] && IsSpace(s[|s| - 1]) then StripEnd(s[..|s| - 1]) else s
  }

  /** `s.rstrip()` drops a run of whitespace from the back and nothing else. */
  lemma {:induction false} StripEndIsPrefix(s: string)
    ensures var r := StripEnd(s);
      r == s[..|r|] && AllSpace(s[|r|..])
  {
    if s != [] && IsSpace(s[|s| - 1]) {
      var init := s[..|s| - 1];
      StripEndIsPrefix(init);
      var r := StripEnd(s);
      assert init[..|r|] == s[..|r|];
      assert s[|r|..] == init[|r|..] + [s[|s| - 1]];
    }
  }

  /** `s.strip()`: neither starts nor ends with whitespace. */
  function Strip(s: string): (r: string)
    ensures r == [] || (!IsSpace(r[0]) && !IsSpace(r[|r| - 1]))
  {
    var t := StripStart(s);
    StripEndIsPrefix(t);
    var r := StripEnd(t);
    assert r != [] ==> r[0] == t[0];
    r
  }

  /**
   * `s.strip()` removes whitespace only: what it returns is the infix of `s`
   * between a run of leading and a run of trailing whitespace.
   */
  lemma StripIsInfix(s: string)
    ensures var k := |s| - |StripStart(s)|; var r := Strip(s);
      && k + |r| <= |s|
      && r == s[k..k + |r|]
      && AllSpace(s[..k])
      && AllSpace(s[k + |r|..])
  {
    var t := StripStart(s);
    var r := StripEnd(t);
    StripStartIsSuffix(s);
    StripEndIsPrefix(t);
    SuffixSlices(s, |s| - |t|, |r|);
  }

  /** Slicing a suffix is slicing the whole sequence at shifted bounds. */
  lemma SuffixSlices(s: string, k: int, m: int)
    requires 0 <= k <= |s| && 0 <= m <= |s| - k
    ensures s[k..][..m] == s[k..k + m] && s[k..][m..] == s[k + m..]
  {
  }

  lemma {:induction false} StripOfSpaces(s: string)
    requires AllSpace(s)
    ensures StripStart(s) == [] && Strip(s) == []
    decreases |s|
  {
    if s != [] {
      assert AllSpace(s[1..]) by {
        forall i | 0 <= i < |s[1..]| ensures IsSpace(s[1..][i]) {
          assert s[1..][i] == s[i + 1];
        }
      }
      StripOfSpaces(s[1..]);
    }
  }

  // ---------------------------------------------------------------------------
  // split() with no argument

  /** Length of the run of non-whitespace characters that starts `s`. */
  function WordLen(s: string): (n: nat)
    requires s != [] && !IsSpace(s[0])
    ensures 0 < n <= |s| && NoSpace(s[..n]) && (n == |s| || IsSpace(s[n]))
  {
    if |s| == 1 || IsSpace(s[1]) then 1
    else
      var m := WordLen(s[1..]);
      assert s[..m + 1] == [s[0]] + s[1..][..m];
      m + 1
  }

  /** `s.split()`: the maximal runs of non-whitespace characters, in order. */
  function Words(s: string): (ws: seq<string>)
    ensures forall i :: 0 <= i < |ws| ==> IsWord(ws[i])
    decreases |s|
  {
    if s == [] then []
    else if IsSpace(s[0]) then Words(s[1..])
    else
      var n := WordLen(s);
      [s[..n]] + Words(s[n..])
  }

  /** `s.split()` is empty exactly when `s` is all whitespace. */
  lemma {:induction false} WordsEmptyIffSpaces(s: string)
    ensures Words(s) == [] <==> AllSpace(s)
    decreases |s|
  {
    if s != [] {
      WordsEmptyIffSpaces(s[1..]);
      if IsSpace(s[0]) {
        assert AllSpace(s) <==> AllSpace(s[1..]) by {
          if AllSpace(s[1..]) {
            forall i | 0 <= i < |s| ensures IsSpace(s[i]) {
              if i > 0 { assert s[i] == s[1..][i - 1]; }
            }
          }
        }
      }
    }
  }

  lemma {:induction false} WordLenAppendSpace(s: string, c: char)
    requires s != [] && !IsSpace(s[0]) && IsSpace(c)
    ensures WordLen(s + [c]) == WordLen(s)
    decreases |s|
  {
    if |s| > 1 && !IsSpace(s[1]) {
      assert (s + [c])[1..] == s[1..] + [c];
      WordLenAppendSpace(s[1..], c);
    }
  }

  /** A trailing whitespace character does not change `split()`. */
  lemma {:induction false} WordsAppendSpace(s: string, c: char)
    requires IsSpace(c)
    ensures Words(s + [c]) == Words(s)
    decreases |s|
  {
    if s == [] {
      assert Words([c]) == Words([]);
    } else if IsSpace(s[0]) {
      assert (s + [c])[1..] == s[1..] + [c];
      WordsAppendSpace(s[1..], c);
    } else {
      var n := WordLen(s);
      WordLenAppendSpace(s, c);
      assert (s + [c])[..n] == s[..n];
      assert (s + [c])[n..] == s[n..] + [c];
      WordsAppendSpace(s[n..], c);
    }
  }

  lemma {:induction false} WordsOfStripStart(s: string)
    ensures Words(StripStart(s)) == Words(s)
    decreases |s|
  {
    if s != [] && IsSpace(s[0]) {
      WordsOfStripStart(s[1..]);
    }
  }

  lemma {:induction false} WordsOfStripEnd(s: string)
    ensures Words(StripEnd(s)) == Words(s)
    decreases |s|
  {
    if s != [] && IsSpace(s[|s| - 1]) {
      var init := s[..|s| - 1];
      assert s == init + [s[|s| - 1]];
      WordsAppendSpace(init, s[|s| - 1]);
      WordsOfStripEnd(init);
    }
  }

  /** `s.strip().split()` and `s.split()` give the same tokens. */
  lemma WordsOfStrip(s: string)
    ensures Words(Strip(s)) == Words(s)
  {
    WordsOfStripStart(s);
    WordsOfStripEnd(StripStart(s));
  }

  lemma {:induction false} WordLenOfWord(w: string, rest: string)
    requires IsWord(w) && (rest == [] || IsSpace(rest[0]))
    ensures WordLen(w + rest) == |w|
    decreases |w|
  {
    if |w| > 1 {
      assert (w + rest)[1..] == w[1..] + rest;
      WordLenOfWord(w[1..], rest);
    }
  }

  /** A word followed by nothing or by whitespace is the first token. */
  lemma WordsCons(w: string, rest: string)
    requires IsWord(w) && (rest == [] || IsSpace(rest[0]))
    ensures Words(w + rest) == [w] + Words(rest)
  {
    WordLenOfWord(w, rest);
    assert (w + rest)[..|w|] == w;
    assert (w + rest)[|w|..] == rest;
  }

  /** `"a b".split() == ["a", "b"]` for two words `a` and `b`. */
  lemma WordsOfPair(a: string, b: string)
    requires IsWord(a) && IsWord(b)
    ensures Words(a + " " + b) == [a, b]
  {
    WordsCons(a, " " + b);
    assert a + " " + b == a + (" " + b);
    assert (" " + b)[1..] == b;
    WordsCons(b, []);
    assert b + [] == b;
  }

  /**
   * `w` is the first `split()` token of `s`, found at index `k`: only
   * whitespace before it, whitespace or the end of `s` after it.
   */
  predicate FirstWordAt(s: string, w: string, k: int) {
    && IsWord(w)
    && 0 <= k && k + |w| <= |s|
    && AllSpace(s[..k])
    && s[k..k + |w|] == w
    && (k + |w| == |s| || IsSpace(s[k + |w|]))
  }

  /** At most one word of `s` is its first word: the position and the word are determined by `s`. */
  lemma FirstWordUnique(s: string, w1: string, k1: int, w2: string, k2: int)
    requires FirstWordAt(s, w1, k1) && FirstWordAt(s, w2, k2)
    ensures k1 == k2 && w1 == w2
  {
    assert forall i :: 0 <= i < k1 ==> IsSpace(s[..k1][i]);
    assert forall i :: 0 <= i < k2 ==> IsSpace(s[..k2][i]);
    assert s[k1..k1 + |w1|][0] == s[k1] && s[k2..k2 + |w2|][0] == s[k2];
    assert k1 == k2;
    var k := k1;
    forall i | k <= i < k + |w1| ensures !IsSpace(s[i]) {
      assert s[k..k + |w1|][i - k] == s[i];
    }
    forall i | k <= i < k + |w2| ensures !IsSpace(s[i]) {
      assert s[k..k + |w2|][i - k] == s[i];
    }
    assert |w1| == |w2|;
  }

  /** The first token of `split()` is the first maximal run of non-whitespace characters. */
  lemma FirstWordPosition(s: string)
    requires Words(s) != []
    ensures FirstWordAt(s, Words(s)[0], |s| - |StripStart(s)|)
  {
    var t := StripStart(s);
    var k := |s| - |t|;
    StripStartIsSuffix(s);
    WordsOfStripStart(s);
    var n := WordLen(t);
    WordsHead(t);
    FirstWordAtSuffix(s, k, n);
  }

  /** A leading run of the text after the whitespace prefix `s[..k]` is a first word of `s`. */
  lemma FirstWordAtSuffix(s: string, k: int, n: int)
    requires 0 <= k && 0 < n && k + n <= |s| && AllSpace(s[..k])
    requires NoSpace(s[k..][..n]) && (k + n == |s| || IsSpace(s[k..][n]))
    ensures FirstWordAt(s, s[k..][..n], k)
  {
    assert s[k..][..n] == s[k..k + n];
    if k + n < |s| {
      assert s[k..][n] == s[k + n];
    }
  }

  /** The first token of text starting with a non-whitespace character is its leading run. */
  lemma WordsHead(t: string)
    requires t != [] && !IsSpace(t[0])
    ensures Words(t) != [] && Words(t)[0] == t[..WordLen(t)]
  {
  }

  /** A single word splits into itself. */
  lemma WordsOfWord(w: string)
    requires IsWord(w)
    ensures Words(w) == [w]
  {
    WordsCons(w, []);
    assert w + [] == w;
  }

  // ---------------------------------------------------------------------------
  // lower(), startswith(), replace(pat, '')

  /**
   * `lower()` on one character, for ASCII, the Latin-1 upper-case block and
   * KELVIN SIGN (whose lower case is ASCII `k`); other characters unchanged.
   */
  function LowerChar(c: char): char {
    if 'A' <= c <= 'Z' || ('\U{C0}' <= c <= '\U{DE}' && c != '\U{D7}') then (c as int + 32) as char
    else if c == '\U{212A}' then 'k'
    else c
  }

  /** `s.lower()`, character by character. */
  function Lower(s: string): (r: string)
    ensures |r| == |s|
  {
    seq(|s|, i requires 0 <= i < |s| => LowerChar(s[i]))
  }

  /** Lower-case ASCII letters are their own lower case. */
  lemma LowerOfLowerAscii(s: string)
    requires forall i :: 0 <= i < |s| ==> 'a' <= s[i] <= 'z'
    ensures Lower(s) == s
  {
  }

  /** Lower-casing twice is lower-casing once. */
  lemma LowerIdempotent(s: string)
    ensures Lower(Lower(s)) == Lower(s)
  {
    forall i | 0 <= i < |s| ensures Lower(Lower(s))[i] == Lower(s)[i] {
      assert Lower(Lower(s))[i] == LowerChar(LowerChar(s[i]));
    }
  }

  predicate StartsWith(s: string, prefix: string) {
    |prefix| <= |s| && s[..|prefix|] == prefix
  }

  /** `s.startswith(prefix)` compares the first characters of `s` one by one with `prefix`. */
  lemma StartsWithCharwise(s: string, prefix: string)
    ensures StartsWith(s, prefix) <==> |prefix| <= |s| && forall i :: 0 <= i < |prefix| ==> s[i] == prefix[i]
  {
    if |prefix| <= |s| && forall i :: 0 <= i < |prefix| ==> s[i] == prefix[i] {
      assert s[..|prefix|] == prefix;
    }
  }

  predicate OccursAt(s: string, pat: string, i: nat) {
    i + |pat| <= |s| && s[i..i + |pat|] == pat
  }

  predicate Occurs(s: string, pat: string) {
    exists i: nat | i <= |s| :: OccursAt(s, pat, i)
  }

  /**
   * `s.replace(pat, '')`: scanning left to right, every non-overlapping
   * occurrence of `pat` is removed.
   */
  function RemoveAll(s: string, pat: string): (r: string)
    requires pat != []
    ensures |r| <= |s|
    decreases |s|
  {
    if |s| < |pat| then s
    else if s[..|pat|] == pat then RemoveAll(s[|pat|..], pat)
    else [s[0]] + RemoveAll(s[1..], pat)
  }

  /** An occurrence of the pattern at the front is removed. */
  lemma RemoveAllSkipsMatch(pat: string, s: string)
    requires pat != []
    ensures RemoveAll(pat + s, pat) == RemoveAll(s, pat)
  {
    assert (pat + s)[..|pat|] == pat;
    assert (pat + s)[|pat|..] == s;
  }

  /** A first character that does not start an occurrence is kept, in front of the rest. */
  lemma RemoveAllKeepsOther(s: string, pat: string)
    requires pat != [] && s != [] && !StartsWith(s, pat)
    ensures RemoveAll(s, pat) == [s[0]] + RemoveAll(s[1..], pat)
  {
    if |s| < |pat| {
      assert [s[0]] + s[1..] == s;
    }
  }

  /** Text without an occurrence of the pattern is left as it is. */
  lemma {:induction false} RemoveAllUntouched(s: string, pat: string)
    requires pat != [] && !Occurs(s, pat)
    ensures RemoveAll(s, pat) == s
    decreases |s|
  {
    if |s| >= |pat| {
      assert !OccursAt(s, pat, 0);
      assert s[..|pat|] != pat;
      forall i: nat | i <= |s[1..]| && OccursAt(s[1..], pat, i) ensures false {
        assert s[1..][i..i + |pat|] == s[i + 1..i + 1 + |pat|];
        assert OccursAt(s, pat, i + 1);
      }
      RemoveAllUntouched(s[1..], pat);
      assert [s[0]] + s[1..] == s;
    }
  }

  // ---------------------------------------------------------------------------
  // split(sep) with a one-character separator

  /** The pieces joined back together with `sep` between them. */
  function JoinWith(parts: seq<string>, sep: char): string
    requires |parts| >= 1
  {
    if |parts| == 1 then parts[0] else parts[0] + [sep] + JoinWith(parts[1..], sep)
  }

  /**
   * `s.split(sep)`: at least one piece, no piece holds `sep`, and joining the
   * pieces with `sep` gives `s` back.
   */
  function SplitOn(s: string, sep: char): (parts: seq<string>)
    ensures |parts| >= 1
    ensures forall i :: 0 <= i < |parts| ==> sep !in parts[i]
    ensures JoinWith(parts, sep) == s
  {
    if s == [] then [[]]
    else
      var rest := SplitOn(s[1..], sep);
      if s[0] == sep then
        assert ([[]] + rest)[1..] == rest;
        [[]] + rest
      else
        var parts := [[s[0]] + rest[0]] + rest[1..];
        assert parts[1..] == rest[1..];
        assert JoinWith(parts, sep) == [s[0]] + JoinWith(rest, sep) by {
          if |rest| > 1 {
            assert JoinWith(parts, sep) == ([s[0]] + rest[0]) + [sep] + JoinWith(rest[1..], sep);
          }
        }
        assert s == [s[0]] + s[1..];
        parts
  }

  // ---------------------------------------------------------------------------
  // int(word)

  predicate IsDigit(c: char) {
    '0' <= c <= '9'
  }

  /** Decimal digits, with single underscores allowed between two digits. */
  predicate IsDigitRun(s: string) {
    && s != []
    && IsDigit(s[0])
    && forall i {:trigger s[i]} :: 0 <= i < |s| ==> IsDigit(s[i]) || (s[i] == '_' && 0 < i < |s| - 1 && IsDigit(s[i + 1]))
  }

  lemma DigitRunEndsWithDigit(s: string)
    requires IsDigitRun(s)
    ensures IsDigit(s[|s| - 1])
  {
  }

  /** The number the digits of `s` spell, underscores skipped. */
  function DigitsValue(s: string): nat {
    if s == [] then 0
    else
      var last := s[|s| - 1];
      if IsDigit(last) then DigitsValue(s[..|s| - 1]) * 10 + (last as int - '0' as int)
      else DigitsValue(s[..|s| - 1])
  }

  /**
   * `int(word)`: an optional sign, then digits; `None` where Python raises
   * ValueError. An accepted word ends with a digit, and only a minus sign
   * gives a negative number.
   */
  function ParseInt(s: string): (r: Option<int>)
    ensures r.Some? ==> s != [] && IsDigit(s[|s| - 1])
    ensures r.Some? && r.value < 0 ==> s[0] == '-'
  {
    if s != [] && (s[0] == '+' || s[0] == '-') then
      if IsDigitRun(s[1..]) then
        var magnitude: int := DigitsValue(s[1..]);
        DigitRunEndsWithDigit(s[1..]);
        assert s[1..][|s| - 2] == s[|s| - 1];
        Some(if s[0] == '-' then -magnitude else magnitude)
      else None
    else if IsDigitRun(s) then
      DigitRunEndsWithDigit(s);
      Some(DigitsValue(s) as int)
    else None
  }

  /** `int(word)` succeeds exactly on a digit run, with or without one leading sign. */
  lemma ParseIntAccepts(s: string)
    ensures ParseInt(s).Some? <==>
      IsDigitRun(s) || (s != [] && (s[0] == '+' || s[0] == '-') && IsDigitRun(s[1..]))
  {
  }

  function DigitChar(d: nat): (c: char)
    requires d < 10
    ensures IsDigit(c) && c as int - '0' as int == d
  {
    ('0' as int + d) as char
  }

  /** `str(n)` for a natural number. */
  function NatToString(n: nat): (s: string)
    ensures s != [] && forall i :: 0 <= i < |s| ==> IsDigit(s[i])
  {
    if n < 10 then [DigitChar(n)] else NatToString(n / 10) + [DigitChar(n % 10)]
  }

  /** `str(n)` for an integer. */
  function IntToString(n: int): (s: string)
    ensures IsWord(s)
  {
    if n < 0 then "-" + NatToString(-n) else NatToString(n)
  }

  lemma {:induction false} NatToStringValue(n: nat)
    ensures DigitsValue(NatToString(n)) == n
  {
    var s := NatToString(n);
    if n < 10 {
      assert s[..|s| - 1] == [];
    } else {
      assert s[..|s| - 1] == NatToString(n / 10);
      NatToStringValue(n / 10);
    }
  }

  /** `int(str(n)) == n`. */
  lemma ParseIntOfIntToString(n: int)
    ensures ParseInt(IntToString(n)) == Some(n)
  {
    var digits := NatToString(if n < 0 then -n else n);
    NatToStringValue(if n < 0 then -n else n);
    assert IsDigitRun(digits);
    if n < 0 {
      assert IntToString(n)[1..] == digits;
    }
  }
}
