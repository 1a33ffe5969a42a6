/**
 * Route patterns: the text of a registered route read as literal text and
 * `{name}` / `{name:regex}` placeholders, and the anchored match of such a
 * pattern against a request path.
 *
 * The router turns each placeholder into a capturing group, `(\w+)` by
 * default or `(regex)` when one is given, and matches `^...$` against the
 * trimmed path. Here the default group is matched exactly; a custom regex is
 * an opaque predicate `rx(regex, text)` ("regex matches all of text").
 * Capture lengths are tried longest first and the first that lets the rest of
 * the pattern match wins, the order in which PCRE backtracks a greedy group.
 */
module RoutePatterns {
  import opened Php
  import opened Strings

  datatype Constraint = Word | Custom(regex: string)

  datatype Segment = Literal(text: string) | Param(name: string, constraint: Constraint)

  /** `rx(regex, text)` holds when the custom regex matches the whole of `text`. */
  type Regex = (string, string) -> bool

  /** The source text a segment stands for. */
  function SegmentText(seg: Segment): string {
    match seg
    case Literal(t) => t
    case Param(n, Word) => "{" + n + "}"
    case Param(n, Custom(re)) => "{" + n + ":" + re + "}"
  }

  function Text(segs: seq<Segment>): string {
    if segs == [] then "" else SegmentText(segs[0]) + Text(segs[1..])
  }

  /** The placeholder names in left-to-right order (`$routeNames`). */
  function ParamNames(segs: seq<Segment>): seq<string> {
    if segs == [] then []
    else if segs[0].Param? then [segs[0].name] + ParamNames(segs[1..])
    else ParamNames(segs[1..])
  }

  // ----------------------------------------------------------------- parsing

  /**
   * The placeholder `\{(\w+)(:[^}]+)?}` at the very start of `s`, if there is
   * one, with its length.
   */
  function TokenAt(s: string): (r: Option<(Segment, nat)>)
    ensures r.Some? ==> r.value.0.Param? && 0 < r.value.1 <= |s|
    ensures r.Some? ==> SegmentText(r.value.0) == s[..r.value.1]
  {
    if s == [] || s[0] != '{' then None
    else
      var w := WordRun(s[1..]);
      if w == 0 || 1 + w >= |s| then None
      else if s[1 + w] == '}' then
        WordTokenText(s, w);
        Some((Param(s[1..1 + w], Word), w + 2))
      else if s[1 + w] == ':' then
        var k := RunUntil(s[2 + w..], '}');
        if k == 0 || 2 + w + k >= |s| then None
        else
          CustomTokenText(s, w, k);
          Some((Param(s[1..1 + w], Custom(s[2 + w..2 + w + k])), 3 + w + k))
      else None
  }

  lemma WordTokenText(s: string, w: nat)
    requires 1 + w < |s| && s[0] == '{' && s[1 + w] == '}'
    ensures s[..w + 2] == "{" + s[1..1 + w] + "}"
  {
  }

  lemma CustomTokenText(s: string, w: nat, k: nat)
    requires 2 + w + k < |s| && s[0] == '{' && s[1 + w] == ':'
    requires k <= |s[2 + w..]| && s[2 + w..][k] == '}'
    ensures s[..3 + w + k] == "{" + s[1..1 + w] + ":" + s[2 + w..2 + w + k] + "}"
  {
    assert s[2 + w + k] == '}';
  }

  /** Prepends one literal character, extending a leading literal. */
  function PrependChar(c: char, segs: seq<Segment>): (r: seq<Segment>)
    ensures Text(r) == [c] + Text(segs)
    ensures ParamNames(r) == ParamNames(segs)
  {
    if segs != [] && segs[0].Literal? then [Literal([c] + segs[0].text)] + segs[1..]
    else [Literal([c])] + segs
  }

  /** Reads a (trimmed) route the way the router's two `preg_*` scans do. */
  function Parse(s: string): seq<Segment>
    decreases |s|
  {
    if s == [] then []
    else
      var token := TokenAt(s);
      if token.Some? then [token.value.0] + Parse(s[token.value.1..])
      else PrependChar(s[0], Parse(s[1..]))
  }

  /** Parsing loses nothing: the segments spell the route text back exactly. */
  lemma {:induction false} ParseText(s: string)
    ensures Text(Parse(s)) == s
    decreases |s|
  {
    if s != [] {
      var t := TokenAt(s);
      if t.Some? {
        var n := t.value.1;
        var rest := Parse(s[n..]);
        assert Parse(s) == [t.value.0] + rest;
        ParseText(s[n..]);
        TextCons(t.value.0, rest);
        assert SegmentText(t.value.0) == s[..n];
        SplitAt(s, n);
      } else {
        var rest := Parse(s[1..]);
        assert Parse(s) == PrependChar(s[0], rest);
        ParseText(s[1..]);
        SplitAt(s, 1);
        assert s[..1] == [s[0]];
      }
    }
  }

  /** Literal text without `{` in front of a placeholder (or of nothing) reads as one literal segment. */
  lemma {:induction false} ParseLiteralPrefix(lit: string, s: string)
    requires lit != [] && '{' !in lit
    requires Parse(s) == [] || Parse(s)[0].Param?
    ensures Parse(lit + s) == [Literal(lit)] + Parse(s)
  {
    var full := lit + s;
    assert lit[0] in lit;
    TailOfConcat(lit, s);
    assert full[0] == lit[0] != '{';
    assert TokenAt(full).None?;
    assert Parse(full) == PrependChar(lit[0], Parse(lit[1..] + s));
    if |lit| == 1 {
      assert lit[1..] + s == s;
      assert lit == [lit[0]];
    } else {
      ParseLiteralPrefix(lit[1..], s);
      var after := [Literal(lit[1..])] + Parse(s);
      assert Parse(lit[1..] + s) == after;
      assert after[0].Literal? && after[0].text == lit[1..] && after[1..] == Parse(s);
      assert PrependChar(lit[0], after) == [Literal([lit[0]] + lit[1..])] + Parse(s);
      assert [lit[0]] + lit[1..] == lit;
    }
  }

  lemma SplitAt(s: string, n: nat)
    requires n <= |s|
    ensures s[..n] + s[n..] == s
  {
  }

  lemma TailOfConcat(a: string, b: string)
    requires a != []
    ensures (a + b)[1..] == a[1..] + b
  {
  }

  lemma TextCons(seg: Segment, rest: seq<Segment>)
    ensures Text([seg] + rest) == SegmentText(seg) + Text(rest)
  {
    assert ([seg] + rest)[1..] == rest;
  }

  // ---------------------------------------------------------------- matching

  /** What a placeholder's group accepts as its capture. */
  predicate Accepts(c: Constraint, v: string, rx: Regex) {
    match c
    case Word => |v| >= 1 && AllWordChars(v)
    case Custom(re) => rx(re, v)
  }

  /** The longest capture a placeholder's group can take from `s`. */
  function MaxCapture(c: Constraint, s: string): (n: nat)
    ensures n <= |s|
  {
    match c
    case Word => WordRun(s)
    case Custom(_) => |s|
  }

  /**
   * The anchored match of `segs` against all of `s`: the captured values in
   * placeholder order, or None.
   */
  function Match(segs: seq<Segment>, s: string, rx: Regex): (r: Option<seq<string>>)
    ensures r.Some? ==> |r.value| == |ParamNames(segs)|
    decreases |segs|, |s| + 1
  {
    if segs == [] then (if s == [] then Some([]) else None)
    else
      match segs[0]
      case Literal(t) =>
        if |t| <= |s| && s[..|t|] == t then Match(segs[1..], s[|t|..], rx) else None
      case Param(_, c) => TryCaptures(c, segs[1..], s, rx, MaxCapture(c, s))
  }

  /** Tries the captures `s[..k]`, `s[..k-1]`, ..., `s[..0]` for one placeholder followed by `rest`. */
  function TryCaptures(c: Constraint, rest: seq<Segment>, s: string, rx: Regex, k: nat): (r: Option<seq<string>>)
    requires k <= |s|
    ensures r.Some? ==> |r.value| == 1 + |ParamNames(rest)|
    decreases |rest| + 1, k
  {
    var next := if k == 0 then None else TryCaptures(c, rest, s, rx, k - 1);
    if Accepts(c, s[..k], rx) then
      match Match(rest, s[k..], rx)
      case Some(vs) => Some([s[..k]] + vs)
      case None => next
    else next
  }

  /** The path a pattern describes once its placeholders are given values. */
  function Fill(segs: seq<Segment>, vs: seq<string>): string
    requires |vs| == |ParamNames(segs)|
  {
    if segs == [] then ""
    else if segs[0].Literal? then segs[0].text + Fill(segs[1..], vs)
    else vs[0] + Fill(segs[1..], vs[1..])
  }

  /** The constraints of the placeholders, in order. */
  function Constraints(segs: seq<Segment>): (cs: seq<Constraint>)
    ensures |cs| == |ParamNames(segs)|
  {
    if segs == [] then []
    else if segs[0].Param? then [segs[0].constraint] + Constraints(segs[1..])
    else Constraints(segs[1..])
  }

  /**
   * A match is sound: putting the captured values back into the pattern gives
   * the path, and every value is one its placeholder's group accepts.
   */
  lemma {:induction false} MatchSound(segs: seq<Segment>, s: string, rx: Regex)
    requires Match(segs, s, rx).Some?
    ensures var vs := Match(segs, s, rx).value;
      Fill(segs, vs) == s &&
      forall i :: 0 <= i < |vs| ==> Accepts(Constraints(segs)[i], vs[i], rx)
    decreases |segs|, |s| + 1
  {
    if segs == [] {
      return;
    }
    match segs[0]
    case Literal(t) =>
      MatchSound(segs[1..], s[|t|..], rx);
      assert s == t + s[|t|..];
    case Param(_, c) =>
      TryCapturesSound(c, segs[1..], s, rx, MaxCapture(c, s));
      assert segs == [segs[0]] + segs[1..];
  }

  lemma {:induction false} TryCapturesSound(c: Constraint, rest: seq<Segment>, s: string, rx: Regex, k: nat)
    requires k <= |s|
    requires TryCaptures(c, rest, s, rx, k).Some?
    ensures var vs := TryCaptures(c, rest, s, rx, k).value;
      vs[0] + Fill(rest, vs[1..]) == s &&
      Accepts(c, vs[0], rx) &&
      forall i :: 1 <= i < |vs| ==> Accepts(Constraints(rest)[i - 1], vs[i], rx)
    decreases |rest| + 1, k
  {
    if Accepts(c, s[..k], rx) && Match(rest, s[k..], rx).Some? {
      MatchSound(rest, s[k..], rx);
      var vs := Match(rest, s[k..], rx).value;
      assert TryCaptures(c, rest, s, rx, k).value == [s[..k]] + vs;
      assert s == s[..k] + s[k..];
    } else {
      TryCapturesSound(c, rest, s, rx, k - 1);
    }
  }

  /**
   * Patterns in which the default group is unambiguous: only `{name}`
   * placeholders, each followed by the end of the pattern or by literal text
   * that starts with a non-word character (`users/{id}/posts/{post}`).
   */
  predicate Separated(segs: seq<Segment>) {
    segs == [] ||
    (&& (match segs[0]
         case Literal(t) => t != []
         case Param(_, c) =>
           c == Word &&
           (|segs| == 1 || (segs[1].Literal? && segs[1].text != [] && !IsWordChar(segs[1].text[0]))))
     && Separated(segs[1..]))
  }

  /**
   * Completeness for separated patterns: substituting any non-empty word
   * strings for the placeholders gives a path that matches and yields exactly
   * those strings.
   */
  lemma {:induction false} MatchFill(segs: seq<Segment>, vs: seq<string>, rx: Regex)
    requires Separated(segs)
    requires |vs| == |ParamNames(segs)|
    requires forall i :: 0 <= i < |vs| ==> |vs[i]| >= 1 && AllWordChars(vs[i])
    ensures Match(segs, Fill(segs, vs), rx) == Some(vs)
  {
    if segs != [] {
      var s := Fill(segs, vs);
      match segs[0]
      case Literal(t) =>
        MatchFill(segs[1..], vs, rx);
        assert s[|t|..] == Fill(segs[1..], vs);
      case Param(_, c) =>
        var v := vs[0];
        var tail := Fill(segs[1..], vs[1..]);
        assert s == v + tail;
        MatchFill(segs[1..], vs[1..], rx);
        assert tail == [] || !IsWordChar(tail[0]) by {
          if |segs| > 1 {
            assert !IsWordChar(segs[1].text[0]);
            assert tail == segs[1].text + Fill(segs[2..], vs[1..]);
          }
        }
        WordRunOfWordPrefix(v, tail);
        assert s[..|v|] == v && s[|v|..] == tail;
        assert TryCaptures(c, segs[1..], s, rx, |v|) == Some([v] + vs[1..]);
        assert [v] + vs[1..] == vs;
    }
  }

  // -------------------------------------------------------- route parameters

  /** `array_combine($names, $values)`: later duplicates of a name win. */
  function Combine(names: seq<string>, values: seq<string>): (m: map<string, string>)
    requires |names| == |values|
    ensures m.Keys == set i | 0 <= i < |names| :: names[i]
  {
    if names == [] then map[]
    else Combine(names[..|names| - 1], values[..|values| - 1])[names[|names| - 1] := values[|values| - 1]]
  }

  /** The i-th name is bound to the i-th value unless a later placeholder reuses the name. */
  lemma {:induction false} CombineAt(names: seq<string>, values: seq<string>, i: nat)
    requires |names| == |values| && i < |names|
    requires names[i] !in names[i + 1..]
    ensures Combine(names, values)[names[i]] == values[i]
  {
    var n := |names| - 1;
    if i < n {
      assert names[n] in names[i + 1..];
      assert names[..n][i + 1..] == names[i + 1..n];
      assert names[i] !in names[..n][i + 1..];
      CombineAt(names[..n], values[..n], i);
    }
  }
}
