/**
 * The PHP string functions the core relies on, each stated by what it
 * computes: `trim` with one character, `implode`/`explode` on one separator,
 * `str_replace` of one search string, `strtolower`, `strpos`-style scans and
 * the byte-wise comparison that `rsort` uses on non-numeric strings.
 */
module Strings {

  /** PCRE's `\w` without the `u` flag: ASCII letters, digits and underscore. */
  predicate IsWordChar(c: char) {
    ('a' <= c <= 'z') || ('A' <= c <= 'Z') || ('0' <= c <= '9') || c == '_'
  }

  predicate AllWordChars(s: string) {
    forall i :: 0 <= i < |s| ==> IsWordChar(s[i])
  }

  /** Length of the longest prefix of `s` made of word characters. */
  function WordRun(s: string): (n: nat)
    ensures n <= |s|
    ensures AllWordChars(s[..n])
    ensures n < |s| ==> !IsWordChar(s[n])
  {
    if s != [] && IsWordChar(s[0]) then 1 + WordRun(s[1..]) else 0
  }

  /** Length of the longest prefix of `s` that does not contain `c`. */
  function RunUntil(s: string, c: char): (n: nat)
    ensures n <= |s|
    ensures c !in s[..n]
    ensures n < |s| ==> s[n] == c
  {
    if s != [] && s[0] != c then 1 + RunUntil(s[1..], c) else 0
  }

  lemma {:induction false} WordRunOfWordPrefix(v: string, t: string)
    requires AllWordChars(v)
    requires t == [] || !IsWordChar(t[0])
    ensures WordRun(v + t) == |v|
  {
    if v != [] {
      assert (v + t)[1..] == v[1..] + t;
      WordRunOfWordPrefix(v[1..], t);
    } else {
      assert v + t == t;
    }
  }

  // ---------------------------------------------------------------- trim

  /** `ltrim($s, $c)`: drops every leading `c`. */
  function TrimLeft(s: string, c: char): string {
    if s != [] && s[0] == c then TrimLeft(s[1..], c) else s
  }

  /** `rtrim($s, $c)`: drops every trailing `c`. */
  function TrimRight(s: string, c: char): string {
    if s != [] && s[|s| - 1] == c then TrimRight(s[..|s| - 1], c) else s
  }

  /** `trim($s, $c)`: drops `c` from both ends. */
  function Trim(s: string, c: char): string {
    TrimRight(TrimLeft(s, c), c)
  }

  /** `ltrim` keeps a suffix, drops only `c`s, and stops at the first other character. */
  lemma {:induction false} TrimLeftSpec(s: string, c: char)
    ensures var r := TrimLeft(s, c);
      |r| <= |s| && r == s[|s| - |r|..] &&
      (forall i :: 0 <= i < |s| - |r| ==> s[i] == c) &&
      (r == [] || r[0] != c)
  {
    if s != [] && s[0] == c {
      var t := s[1..];
      TrimLeftSpec(t, c);
      var r := TrimLeft(t, c);
      var k := |t| - |r|;
      assert TrimLeft(s, c) == r;
      assert s[1 + k..] == t[k..];
      forall i | 0 <= i < 1 + k
        ensures s[i] == c
      {
        if i > 0 {
          assert s[i] == t[i - 1];
        }
      }
    }
  }

  /** `rtrim` keeps a prefix, drops only `c`s, and stops at the last other character. */
  lemma {:induction false} TrimRightSpec(s: string, c: char)
    ensures var r := TrimRight(s, c);
      |r| <= |s| && r == s[..|r|] &&
      (forall i :: |r| <= i < |s| ==> s[i] == c) &&
      (r == [] || r[|r| - 1] != c)
  {
    if s != [] && s[|s| - 1] == c {
      var t := s[..|s| - 1];
      TrimRightSpec(t, c);
      var r := TrimRight(t, c);
      assert TrimRight(s, c) == r;
      assert t[..|r|] == s[..|r|];
      forall i | |r| <= i < |s| - 1
        ensures s[i] == c
      {
        assert s[i] == t[i];
      }
    }
  }

  lemma {:induction false} TrimLeftSnoc(s: string, c: char)
    ensures TrimLeft(s + [c], c) == if TrimLeft(s, c) == [] then [] else TrimLeft(s, c) + [c]
  {
    if s != [] {
      assert (s + [c])[1..] == s[1..] + [c];
      TrimLeftSnoc(s[1..], c);
    }
  }

  /** A slash more or less at either end does not change the trimmed text. */
  lemma TrimIgnoresEnds(s: string, c: char)
    ensures Trim([c] + s, c) == Trim(s, c)
    ensures Trim(s + [c], c) == Trim(s, c)
  {
    assert ([c] + s)[1..] == s;
    TrimLeftSnoc(s, c);
    var t := TrimLeft(s, c);
    if t != [] {
      assert (t + [c])[..|t + [c]| - 1] == t;
    }
  }

  lemma {:induction false} TrimLeftOfTrimmedRight(t: string, c: char)
    requires t == [] || t[0] != c
    ensures TrimLeft(TrimRight(t, c), c) == TrimRight(t, c)
  {
    TrimRightSpec(t, c);
    var r := TrimRight(t, c);
    assert r == [] || r[0] == t[0];
  }

  /** Trimming twice is trimming once, and a trimmed text neither starts nor ends with `c`. */
  lemma TrimIdempotent(s: string, c: char)
    ensures Trim(Trim(s, c), c) == Trim(s, c)
    ensures var r := Trim(s, c); r == [] || (r[0] != c && r[|r| - 1] != c)
  {
    TrimLeftSpec(s, c);
    var l := TrimLeft(s, c);
    TrimLeftOfTrimmedRight(l, c);
    TrimRightSpec(l, c);
    var r := TrimRight(l, c);
    TrimRightSpec(r, c);
    assert TrimRight(r, c) == r;
  }

  // ------------------------------------------------------- implode/explode

  /** `implode($sep, $xs)`. */
  function Join(sep: string, xs: seq<string>): string
  {
    if xs == [] then "" else if |xs| == 1 then xs[0] else xs[0] + sep + Join(sep, xs[1..])
  }

  /** Appending one piece appends it after one more separator. */
  lemma {:induction false} JoinSnoc(sep: string, xs: seq<string>, x: string)
    ensures Join(sep, xs + [x]) == if xs == [] then x else Join(sep, xs) + sep + x
  {
    if |xs| > 1 {
      assert (xs + [x])[1..] == xs[1..] + [x];
      JoinSnoc(sep, xs[1..], x);
    } else if |xs| == 1 {
      assert (xs + [x])[1..] == [x];
    }
  }

  /** `explode($c, $s)` for a one-character separator. */
  function Split(s: string, c: char): (r: seq<string>)
    ensures |r| >= 1
  {
    if s == [] then [""]
    else
      var rest := Split(s[1..], c);
      if s[0] == c then [""] + rest else [[s[0]] + rest[0]] + rest[1..]
  }

  lemma {:induction false} SplitNoSeparator(a: string, c: char)
    requires c !in a
    ensures Split(a, c) == [a]
  {
    if a != [] {
      SplitNoSeparator(a[1..], c);
      assert [a[0]] + a[1..] == a;
    }
  }

  lemma {:induction false} SplitAtSeparator(a: string, b: string, c: char)
    requires c !in a
    ensures Split(a + [c] + b, c) == [a] + Split(b, c)
  {
    if a == [] {
      assert a + [c] + b == [c] + b;
      assert ([c] + b)[1..] == b;
    } else {
      assert (a + [c] + b)[1..] == a[1..] + [c] + b;
      SplitAtSeparator(a[1..], b, c);
      assert [a[0]] + a[1..] == a;
    }
  }

  /** Splitting what was joined on a character that no piece contains gives the pieces back. */
  lemma {:induction false} SplitJoin(xs: seq<string>, c: char)
    requires |xs| >= 1
    requires forall i :: 0 <= i < |xs| ==> c !in xs[i]
    ensures Split(Join([c], xs), c) == xs
  {
    if |xs| == 1 {
      SplitNoSeparator(xs[0], c);
    } else {
      SplitJoin(xs[1..], c);
      SplitAtSeparator(xs[0], Join([c], xs[1..]), c);
      assert [xs[0]] + xs[1..] == xs;
    }
  }

  // ------------------------------------------------------------ str_replace

  /** `str_replace($pat, $rep, $s)`: every non-overlapping occurrence, left to right. */
  function ReplaceAll(s: string, pat: string, rep: string): string
    requires pat != []
    decreases |s|
  {
    if |pat| <= |s| && s[..|pat|] == pat then rep + ReplaceAll(s[|pat|..], pat, rep)
    else if s == [] then []
    else [s[0]] + ReplaceAll(s[1..], pat, rep)
  }

  /** A text in which the search string cannot even begin is left alone. */
  lemma {:induction false} ReplaceAbsent(s: string, pat: string, rep: string)
    requires pat != [] && pat[0] !in s
    ensures ReplaceAll(s, pat, rep) == s
  {
    if s != [] {
      assert s[0] != pat[0];
      ReplaceAbsent(s[1..], pat, rep);
    }
  }

  /** The first occurrence is replaced and the scan resumes right after it. */
  lemma {:induction false} ReplaceFirst(a: string, pat: string, b: string, rep: string)
    requires pat != [] && pat[0] !in a
    ensures ReplaceAll(a + pat + b, pat, rep) == a + rep + ReplaceAll(b, pat, rep)
  {
    var s := a + pat + b;
    if a == [] {
      assert s == pat + b;
      assert s[..|pat|] == pat;
      assert s[|pat|..] == b;
    } else {
      assert s[0] == a[0] != pat[0];
      assert s[..|pat|] != pat by { assert s[..|pat|][0] != pat[0]; }
      assert s[1..] == a[1..] + pat + b;
      ReplaceFirst(a[1..], pat, b, rep);
      assert [a[0]] + a[1..] == a;
    }
  }

  // -------------------------------------------------------------- strtolower

  /** PHP 8's locale-independent `strtolower` on one byte. */
  function LowerChar(c: char): char {
    if 'A' <= c <= 'Z' then (c as int + 32) as char else c
  }

  function ToLower(s: string): string {
    seq(|s|, i requires 0 <= i < |s| => LowerChar(s[i]))
  }

  /** Lower-casing is idempotent and keeps the length. */
  lemma ToLowerIdempotent(s: string)
    ensures |ToLower(s)| == |s|
    ensures ToLower(ToLower(s)) == ToLower(s)
  {
  }

  // ------------------------------------------------------- byte-wise order

  /** `strcmp($a, $b) <= 0`. */
  predicate LexLessEq(a: string, b: string) {
    a == [] || (b != [] && (a[0] < b[0] || (a[0] == b[0] && LexLessEq(a[1..], b[1..]))))
  }

  lemma {:induction false} LexTotal(a: string, b: string)
    ensures LexLessEq(a, b) || LexLessEq(b, a)
  {
    if a != [] && b != [] && a[0] == b[0] {
      LexTotal(a[1..], b[1..]);
    }
  }

  lemma {:induction false} LexTransitive(a: string, b: string, c: string)
    requires LexLessEq(a, b) && LexLessEq(b, c)
    ensures LexLessEq(a, c)
  {
    if a != [] && b != [] && c != [] && a[0] == b[0] && b[0] == c[0] {
      LexTransitive(a[1..], b[1..], c[1..]);
    }
  }

  lemma {:induction false} LexAntisymmetric(a: string, b: string)
    requires LexLessEq(a, b) && LexLessEq(b, a)
    ensures a == b
  {
    if a != [] && b != [] {
      LexAntisymmetric(a[1..], b[1..]);
      assert a == [a[0]] + a[1..];
      assert b == [b[0]] + b[1..];
    }
  }
}
