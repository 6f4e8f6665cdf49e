/** The Python `str` operations the modelled code relies on: whitespace and
    line-break classes, case folding, `strip`, substring search, `replace`,
    `splitlines`, `join` and decimal rendering of integers. */
module PyText {
  import opened Base

  /** The characters for which `str.isspace()` holds; `\s` in a `str` regex
      matches the same set. */
  predicate IsSpace(c: char) {
    c == ' ' || ('\t' <= c <= '\r') || ('\U{1c}' <= c <= '\U{1f}') || c == '\U{85}' || c == '\U{a0}'
    || c == '\U{1680}' || ('\U{2000}' <= c <= '\U{200a}') || c == '\U{2028}' || c == '\U{2029}'
    || c == '\U{202f}' || c == '\U{205f}' || c == '\U{3000}'
  }

  /** The line boundaries of `str.splitlines()` (`\r\n` counts as one). */
  predicate IsLineBreak(c: char) {
    c == '\n' || c == '\r' || c == '\U{0b}' || c == '\U{0c}' || ('\U{1c}' <= c <= '\U{1e}')
    || c == '\U{85}' || c == '\U{2028}' || c == '\U{2029}'
  }

  predicate IsDigit(c: char) { '0' <= c <= '9' }

  predicate IsAsciiUpper(c: char) { 'A' <= c <= 'Z' }

  /** What `\w` matches (ASCII letters, digits and the underscore). */
  predicate IsWordChar(c: char) {
    'a' <= c <= 'z' || IsAsciiUpper(c) || IsDigit(c) || c == '_'
  }

  function LowerChar(c: char): (d: char)
    ensures !IsAsciiUpper(d)
    ensures IsAsciiUpper(c) ==> d as int == c as int + 32
    ensures !IsAsciiUpper(c) ==> d == c
  {
    if IsAsciiUpper(c) then (c as int + 32) as char else c
  }

  /** `str.lower()` on the ASCII letters. */
  function Lower(s: string): (r: string)
    ensures |r| == |s|
    ensures forall i :: 0 <= i < |s| ==> r[i] == LowerChar(s[i])
  {
    seq(|s|, i requires 0 <= i < |s| => LowerChar(s[i]))
  }

  lemma {:induction false} LowerIdempotent(s: string)
    ensures Lower(Lower(s)) == Lower(s)
  {
  }

  lemma {:induction false} LowerConcat(a: string, b: string)
    ensures Lower(a + b) == Lower(a) + Lower(b)
  {
  }

  // ---------------------------------------------------------------- strip

  /** `lstrip` of every leading character satisfying `drop`. */
  function LStripWhile(s: string, drop: char -> bool): (r: string)
    ensures |r| <= |s|
    ensures r != [] ==> !drop(r[0])
    decreases |s|
  {
    if s != [] && drop(s[0]) then LStripWhile(s[1..], drop) else s
  }

  /** What `lstrip` keeps is a suffix of its input. */
  lemma {:induction false} LStripSuffix(s: string, drop: char -> bool)
    ensures LStripWhile(s, drop) == s[|s| - |LStripWhile(s, drop)|..]
    decreases |s|
  {
    if s != [] && drop(s[0]) {
      LStripSuffix(s[1..], drop);
    }
  }

  /** Everything `lstrip` cuts off is droppable. */
  lemma {:induction false} LStripDropped(s: string, drop: char -> bool)
    ensures forall i :: 0 <= i < |s| - |LStripWhile(s, drop)| ==> drop(s[i])
    decreases |s|
  {
    if s != [] && drop(s[0]) {
      LStripDropped(s[1..], drop);
      LStripSuffix(s[1..], drop);
      forall i | 1 <= i < |s| - |LStripWhile(s, drop)|
        ensures drop(s[i])
      {
        assert s[i] == s[1..][i - 1];
      }
    }
  }

  /** `rstrip` of every trailing character satisfying `drop`. */
  function RStripWhile(s: string, drop: char -> bool): (r: string)
    ensures |r| <= |s|
    ensures r != [] ==> !drop(r[|r| - 1])
    decreases |s|
  {
    if s != [] && drop(s[|s| - 1]) then RStripWhile(s[..|s| - 1], drop) else s
  }

  /** What `rstrip` keeps is a prefix of its input. */
  lemma {:induction false} RStripPrefix(s: string, drop: char -> bool)
    ensures RStripWhile(s, drop) == s[..|RStripWhile(s, drop)|]
    decreases |s|
  {
    if s != [] && drop(s[|s| - 1]) {
      RStripPrefix(s[..|s| - 1], drop);
    }
  }

  /** Everything `rstrip` cuts off is droppable. */
  lemma {:induction false} RStripDropped(s: string, drop: char -> bool)
    ensures forall i :: |RStripWhile(s, drop)| <= i < |s| ==> drop(s[i])
    decreases |s|
  {
    if s != [] && drop(s[|s| - 1]) {
      RStripDropped(s[..|s| - 1], drop);
      RStripPrefix(s[..|s| - 1], drop);
      forall i | |RStripWhile(s, drop)| <= i < |s| - 1
        ensures drop(s[i])
      {
        assert s[i] == s[..|s| - 1][i];
      }
    }
  }

  /** `strip(chars)`: both ends. */
  function StripWhile(s: string, drop: char -> bool): (r: string)
  {
    RStripWhile(LStripWhile(s, drop), drop)
  }

  /** How many characters `strip(chars)` cuts from the front. */
  function StripStart(s: string, drop: char -> bool): nat
  {
    |s| - |LStripWhile(s, drop)|
  }

  /** `str.strip()` with no argument. */
  function Strip(s: string): (r: string)
  {
    StripWhile(s, IsSpace)
  }

  /** `strip(chars)` is a contiguous piece of its input that starts and ends
      with kept characters, and everything cut off on either side is dropped. */
  /** `str.strip()` shortens and leaves no white space at either end. */
  lemma {:induction false} StripBounds(s: string)
    ensures |Strip(s)| <= |s|
    ensures Strip(s) != [] ==> !IsSpace(Strip(s)[0]) && !IsSpace(Strip(s)[|Strip(s)| - 1])
  {
    StripWhileSpec(s, IsSpace);
  }

  /** Lower-casing never turns a character into white space. */
  lemma {:induction false} LowerCharNotSpace(c: char)
    requires !IsSpace(c)
    ensures !IsSpace(LowerChar(c))
  {
  }

  lemma {:induction false} StripWhileSpec(s: string, drop: char -> bool)
    ensures |StripWhile(s, drop)| <= |s| - StripStart(s, drop)
    ensures StripWhile(s, drop) == s[StripStart(s, drop)..StripStart(s, drop) + |StripWhile(s, drop)|]
    ensures forall i :: 0 <= i < StripStart(s, drop) ==> drop(s[i])
    ensures forall i :: StripStart(s, drop) + |StripWhile(s, drop)| <= i < |s| ==> drop(s[i])
    ensures StripWhile(s, drop) != [] ==> !drop(StripWhile(s, drop)[0])
    ensures StripWhile(s, drop) != [] ==> !drop(StripWhile(s, drop)[|StripWhile(s, drop)| - 1])
  {
    var l := LStripWhile(s, drop);
    LStripSuffix(s, drop);
    LStripDropped(s, drop);
    RStripPrefix(l, drop);
    RStripDropped(l, drop);
    StripParts(s, l, RStripWhile(l, drop), drop);
  }

  lemma {:induction false} StripParts(s: string, l: string, r: string, drop: char -> bool)
    requires |l| <= |s| && l == s[|s| - |l|..]
    requires forall i :: 0 <= i < |s| - |l| ==> drop(s[i])
    requires l != [] ==> !drop(l[0])
    requires |r| <= |l| && r == l[..|r|]
    requires r != [] ==> !drop(r[|r| - 1])
    requires forall i :: |r| <= i < |l| ==> drop(l[i])
    ensures var lo := |s| - |l|;
            lo + |r| <= |s| && r == s[lo..lo + |r|]
            && (forall i :: lo + |r| <= i < |s| ==> drop(s[i]))
            && (r != [] ==> !drop(r[0]))
  {
    var lo := |s| - |l|;
    forall i | lo + |r| <= i < |s|
      ensures drop(s[i])
    {
      assert s[i] == l[i - lo];
    }
    if r != [] {
      assert r[0] == l[0];
    }
  }

  /** A string that does not start with a droppable character is its own
      `lstrip(chars)`. */
  lemma {:induction false} LStripNoop(s: string, drop: char -> bool)
    requires s != [] ==> !drop(s[0])
    ensures LStripWhile(s, drop) == s
  {
  }

  /** A string with no droppable character at either end is its own strip. */
  lemma {:induction false} StripWhileNoop(s: string, drop: char -> bool)
    requires s != [] ==> !drop(s[0]) && !drop(s[|s| - 1])
    ensures StripWhile(s, drop) == s
  {
  }

  /** A string that starts and ends with non-space characters is its own
      `strip()`. */
  lemma {:induction false} StripNoop(s: string)
    requires s != [] ==> !IsSpace(s[0]) && !IsSpace(s[|s| - 1])
    ensures Strip(s) == s
  {
    StripWhileNoop(s, IsSpace);
  }

  /** A droppable first character makes no difference to `strip`. */
  lemma {:induction false} StripDropFirst(s: string, drop: char -> bool)
    requires s != [] && drop(s[0])
    ensures StripWhile(s, drop) == StripWhile(s[1..], drop)
  {
  }

  /** A droppable last character makes no difference to `strip`. */
  lemma {:induction false} StripDropLast(s: string, drop: char -> bool)
    requires s != [] && drop(s[|s| - 1])
    ensures StripWhile(s, drop) == StripWhile(s[..|s| - 1], drop)
  {
    var l := LStripWhile(s, drop);
    LStripDropLast(s, drop);
    if l != [] {
      assert RStripWhile(l, drop) == RStripWhile(l[..|l| - 1], drop);
    }
  }

  /** `lstrip` of a text ending in a droppable character: cutting that
      character off first cuts it off the result. */
  lemma {:induction false} LStripDropLast(s: string, drop: char -> bool)
    requires s != [] && drop(s[|s| - 1])
    ensures LStripWhile(s, drop) == [] ==> LStripWhile(s[..|s| - 1], drop) == []
    ensures LStripWhile(s, drop) != [] ==>
              LStripWhile(s, drop)[|LStripWhile(s, drop)| - 1] == s[|s| - 1] &&
              LStripWhile(s[..|s| - 1], drop) == LStripWhile(s, drop)[..|LStripWhile(s, drop)| - 1]
    decreases |s|
  {
    var n := |s|;
    if drop(s[0]) {
      if n > 1 {
        LStripDropLast(s[1..], drop);
        assert s[..n - 1][1..] == s[1..][..n - 2];
      }
    } else {
      assert n >= 2;
      assert s[..n - 1][0] == s[0];
    }
  }

  lemma {:induction false} StripWhileIdempotent(s: string, drop: char -> bool)
    ensures StripWhile(StripWhile(s, drop), drop) == StripWhile(s, drop)
  {
    StripWhileSpec(s, drop);
    StripWhileNoop(StripWhile(s, drop), drop);
  }

  // -------------------------------------------------------- substrings

  predicate OccursAt(s: string, pat: string, i: int) {
    0 <= i && i + |pat| <= |s| && s[i..i + |pat|] == pat
  }

  /** Python's `pat in s`. */
  predicate Contains(s: string, pat: string) {
    exists i | 0 <= i <= |s| - |pat| :: OccursAt(s, pat, i)
  }

  /** `any(k in s for k in keywords)`. */
  predicate ContainsAny(s: string, keywords: seq<string>) {
    exists k | 0 <= k < |keywords| :: Contains(s, keywords[k])
  }

  predicate StartsWith(s: string, prefix: string) {
    |prefix| <= |s| && s[..|prefix|] == prefix
  }

  /** A substring of a substring is a substring. */
  lemma {:induction false} ContainsTransitive(s: string, big: string, small: string)
    requires Contains(s, big) && Contains(big, small)
    ensures Contains(s, small)
  {
    var i :| 0 <= i <= |s| - |big| && OccursAt(s, big, i);
    var j :| 0 <= j <= |big| - |small| && OccursAt(big, small, j);
    forall k | 0 <= k < |small|
      ensures s[i + j + k] == small[k]
    {
      assert small[k] == big[j + k] == s[i..i + |big|][j + k];
    }
    assert s[i + j..i + j + |small|] == small;
    assert OccursAt(s, small, i + j);
  }

  /** A string contains itself. */
  lemma {:induction false} ContainsSelf(s: string)
    ensures Contains(s, s)
  {
    assert OccursAt(s, s, 0);
  }

  lemma {:induction false} ContainsWithin(s: string, pat: string, i: int)
    requires OccursAt(s, pat, i)
    ensures Contains(s, pat)
  {
  }

  /** A pattern with a character the text lacks does not occur in it. */
  lemma {:induction false} AbsentCharNotContained(s: string, pat: string, t: int)
    requires 0 <= t < |pat| && pat[t] !in s
    ensures !Contains(s, pat)
  {
    forall i | 0 <= i <= |s| - |pat|
      ensures !OccursAt(s, pat, i)
    {
      assert s[i..i + |pat|][t] == s[i + t];
      assert s[i + t] in s;
    }
  }

  /** None of `keywords` occurs in `s`, shown by a missing character of each:
      `at[k]` is a position in `keywords[k]` whose character `s` lacks. */
  lemma {:induction false} NoneContained(s: string, keywords: seq<string>, at: seq<int>)
    requires |at| == |keywords|
    requires forall k :: 0 <= k < |keywords| ==> 0 <= at[k] < |keywords[k]| && keywords[k][at[k]] !in s
    ensures !ContainsAny(s, keywords)
  {
    forall k | 0 <= k < |keywords|
      ensures !Contains(s, keywords[k])
    {
      AbsentCharNotContained(s, keywords[k], at[k]);
    }
  }

  /** The first occurrence of `pat` at or after `from`. */
  function IndexOf(s: string, pat: string, from: nat): (r: Option<nat>)
    ensures r.Some? ==> from <= r.value && OccursAt(s, pat, r.value)
    ensures r.Some? ==> forall k :: from <= k < r.value ==> !OccursAt(s, pat, k)
    ensures r.None? ==> forall k :: from <= k ==> !OccursAt(s, pat, k)
    decreases |s| - from
  {
    if from + |pat| > |s| then None
    else if s[from..from + |pat|] == pat then Some(from)
    else IndexOf(s, pat, from + 1)
  }

  /** `s.replace(pat, rep)`: every non-overlapping occurrence, left to right. */
  function Replace(s: string, pat: string, rep: string): (r: string)
    requires |pat| > 0
    decreases |s|
  {
    if |s| < |pat| then s
    else if s[..|pat|] == pat then rep + Replace(s[|pat|..], pat, rep)
    else [s[0]] + Replace(s[1..], pat, rep)
  }

  /** Replacing a pattern that does not occur changes nothing. */
  lemma {:induction false} ReplaceAbsent(s: string, pat: string, rep: string)
    requires |pat| > 0 && !Contains(s, pat)
    ensures Replace(s, pat, rep) == s
    decreases |s|
  {
    if |s| >= |pat| {
      assert !OccursAt(s, pat, 0);
      if !Contains(s[1..], pat) {
        ReplaceAbsent(s[1..], pat, rep);
      } else {
        var i :| 0 <= i <= |s[1..]| - |pat| && OccursAt(s[1..], pat, i);
        assert s[i + 1..i + 1 + |pat|] == s[1..][i..i + |pat|];
        assert OccursAt(s, pat, i + 1);
        assert false;
      }
    }
  }

  /** Deleting a pattern never lengthens the text. */
  lemma {:induction false} ReplaceByEmptyShrinks(s: string, pat: string)
    requires |pat| > 0
    ensures |Replace(s, pat, "")| <= |s|
    decreases |s|
  {
    if |s| >= |pat| {
      if s[..|pat|] == pat {
        ReplaceByEmptyShrinks(s[|pat|..], pat);
      } else {
        ReplaceByEmptyShrinks(s[1..], pat);
      }
    }
  }

  // ------------------------------------------------------ lines and join

  /** Index of the first line break, or `|s|`. */
  function LineEnd(s: string): (k: nat)
    ensures k <= |s|
    ensures forall i :: 0 <= i < k ==> !IsLineBreak(s[i])
    ensures k < |s| ==> IsLineBreak(s[k])
  {
    if s == [] || IsLineBreak(s[0]) then 0 else 1 + LineEnd(s[1..])
  }

  /** The first line break of a prefix is the text's own, if it lies inside
      the prefix. */
  lemma {:induction false} LineEndPrefix(s: string, m: nat)
    requires m <= |s|
    ensures LineEnd(s[..m]) == if LineEnd(s) < m then LineEnd(s) else m
  {
    assert forall i :: 0 <= i < m ==> s[..m][i] == s[i];
  }

  /** Without its first character (no line break) the first line is one
      shorter. */
  lemma {:induction false} LineEndTail(s: string)
    requires s != [] && !IsLineBreak(s[0])
    ensures LineEnd(s[1..]) == LineEnd(s) - 1
  {
  }

  /** `str.splitlines()`: no empty trailing line, `\r\n` is one boundary. */
  function SplitLines(s: string): (lines: seq<string>)
    ensures forall k, i :: 0 <= k < |lines| && 0 <= i < |lines[k]| ==> !IsLineBreak(lines[k][i])
    decreases |s|
  {
    if s == [] then []
    else
      var k := LineEnd(s);
      if k == |s| then [s]
      else
        var next := if s[k] == '\r' && k + 1 < |s| && s[k + 1] == '\n' then k + 2 else k + 1;
        [s[..k]] + SplitLines(s[next..])
  }

  /** Where the line after the first line break starts (`\r\n` is one break). */
  function NextLine(s: string): (next: nat)
    requires LineEnd(s) < |s|
    ensures LineEnd(s) < next <= |s|
  {
    var k := LineEnd(s);
    if s[k] == '\r' && k + 1 < |s| && s[k + 1] == '\n' then k + 2 else k + 1
  }

  /** A prefix that keeps the first line break keeps where the next line
      starts. */
  lemma {:induction false} NextLinePrefix(s: string, m: nat)
    requires LineEnd(s) < |s| && NextLine(s) <= m <= |s|
    ensures LineEnd(s[..m]) == LineEnd(s) < m
    ensures NextLine(s[..m]) == NextLine(s)
  {
    var k := LineEnd(s);
    LineEndPrefix(s, m);
    assert s[..m][k] == s[k];
    if k + 1 < m {
      assert s[..m][k + 1] == s[k + 1];
    }
  }

  /** One step of `splitlines`: the first line, then the lines after its
      break. */
  lemma {:induction false} SplitLinesStep(s: string)
    requires LineEnd(s) < |s|
    ensures SplitLines(s) == [s[..LineEnd(s)]] + SplitLines(s[NextLine(s)..])
  {
  }

  /** `sep.join(parts)`. */
  function Join(sep: string, parts: seq<string>): string
  {
    if parts == [] then ""
    else if |parts| == 1 then parts[0]
    else parts[0] + sep + Join(sep, parts[1..])
  }

  // ----------------------------------------------------------- numbers

  function DigitChar(d: nat): (c: char)
    requires d < 10
    ensures IsDigit(c)
  {
    ('0' as int + d) as char
  }

  /** `str(n)` for a natural number. */
  function NatToString(n: nat): (r: string)
    ensures |r| >= 1
    ensures forall i :: 0 <= i < |r| ==> IsDigit(r[i])
    ensures n < 10 <==> |r| == 1
    ensures 10 <= n < 100 ==> |r| == 2
    ensures n > 0 ==> r[0] != '0'
    decreases n
  {
    if n < 10 then [DigitChar(n)] else NatToString(n / 10) + [DigitChar(n % 10)]
  }

  /** `int(s)` for a run of decimal digits (leading zeros allowed). */
  function DigitsValue(s: string): nat
    requires forall i :: 0 <= i < |s| ==> IsDigit(s[i])
    decreases |s|
  {
    if s == [] then 0
    else
      assert IsDigit(s[|s| - 1]);
      DigitsValue(s[..|s| - 1]) * 10 + (s[|s| - 1] as int - '0' as int)
  }

  /** Reading back a rendered number gives the number. */
  lemma {:induction false} DigitsValueOfNatToString(n: nat)
    ensures DigitsValue(NatToString(n)) == n
    decreases n
  {
    if n >= 10 {
      var r := NatToString(n);
      assert r[..|r| - 1] == NatToString(n / 10);
      DigitsValueOfNatToString(n / 10);
    }
  }

  lemma {:induction false} NatToStringInjective(a: nat, b: nat)
    requires NatToString(a) == NatToString(b)
    ensures a == b
  {
    DigitsValueOfNatToString(a);
    DigitsValueOfNatToString(b);
  }

  /** `f"{n:02d}"` for a natural number. */
  function Pad2(n: nat): (r: string)
    ensures |r| >= 2
    ensures n < 100 ==> |r| == 2
    ensures n < 100 ==> (r[0] == '0' <==> n < 10)
  {
    if n < 10 then "0" + NatToString(n) else NatToString(n)
  }

  /** `f"{h:02d}:00"`, the hour labels of the dashboards. */
  function HourLabel(h: nat): string
  {
    Pad2(h) + ":00"
  }

  /** Two distinct hours of the day get distinct labels. */
  lemma {:induction false} HourLabelInjective(a: nat, b: nat)
    requires a < 24 && b < 24 && HourLabel(a) == HourLabel(b)
    ensures a == b
  {
    assert Pad2(a) == HourLabel(a)[..2];
    assert Pad2(b) == HourLabel(b)[..2];
    if a < 10 {
      assert NatToString(a) == Pad2(a)[1..];
      assert NatToString(b) == Pad2(b)[1..];
    }
    NatToStringInjective(a, b);
  }
}
