/** The part of java.util.regex that the finder depends on: full-string
    matching (`String.matches`) of a pattern built from literal characters,
    the escaped dot `\.`, the wildcard `.` and the run `.*`.

    Patterns outside that subset are decided by an `Engine`, a parameter
    standing for the rest of java.util.regex, about which nothing is
    assumed. */
module Regex {

  import opened Results

  /** The rest of java.util.regex: engine(s, pattern) tells whether `s`
      matches all of `pattern`. */
  type Engine = (string, string) -> bool

  /** One element of a pattern in the subset. */
  datatype Token =
    | Lit(c: char)  // a literal character, or `\.` for a literal dot
    | Any           // `.`: one character
    | AnyRun        // `.*`: any run of characters

  /** Java's line terminators. Without the DOTALL flag `.` matches every
      character except these. */
  predicate IsLineTerminator(c: char) {
    c == '\n' || c == '\r' || c == '\U{85}' || c == '\U{2028}' || c == '\U{2029}'
  }

  /** The characters `.` and `.*` accept. */
  predicate IsDotChar(c: char) {
    !IsLineTerminator(c)
  }

  /** Java's regular expression metacharacters outside a character class,
      with `]` and `}` (literal in Java when unmatched) also kept out of
      the fragment. */
  predicate IsMeta(c: char) {
    c in "\\^$.|?*+()[]{}"
  }

  /** Reads a pattern as a token sequence, or None when the pattern uses
      anything outside the subset (any other escape, a quantifier on a
      literal, a class, a group, an anchor, an alternation, ...). What it
      reads back renders as the pattern itself. */
  function Parse(r: string): (o: Option<seq<Token>>)
    ensures o.Some? ==> Render(o.value) == r
    decreases |r|
  {
    if r == [] then Some([])
    else if r[0] == '\\' then
      if |r| >= 2 && r[1] == '.' then
        assert r == "\\." + r[2..];
        Prepend(Lit('.'), Parse(r[2..]))
      else None
    else if r[0] == '.' then
      if |r| >= 2 && r[1] == '*' then
        assert r == ".*" + r[2..];
        Prepend(AnyRun, Parse(r[2..]))
      else
        assert r == "." + r[1..];
        Prepend(Any, Parse(r[1..]))
    else if IsMeta(r[0]) then None
    else
      assert r == [r[0]] + r[1..];
      Prepend(Lit(r[0]), Parse(r[1..]))
  }

  function Prepend(t: Token, rest: Option<seq<Token>>): (o: Option<seq<Token>>)
    ensures o.Some? <==> rest.Some?
    ensures o.Some? ==> Render(o.value) == TokenText(t) + Render(rest.value)
  {
    match rest
    case None => None
    case Some(ts) =>
      assert ([t] + ts)[1..] == ts;
      Some([t] + ts)
  }

  /** The pattern text of one token. */
  function TokenText(t: Token): string {
    match t
    case Lit(c) => if c == '.' then "\\." else [c]
    case Any => "."
    case AnyRun => ".*"
  }

  /** The pattern text of a token sequence. */
  function Render(ts: seq<Token>): string
    decreases |ts|
  {
    if ts == [] then [] else TokenText(ts[0]) + Render(ts[1..])
  }

  /** The token sequences the subset can write down: every literal is a dot
      (written escaped) or a character without a meaning of its own. */
  predicate Expressible(ts: seq<Token>) {
    forall i :: 0 <= i < |ts| ==> ts[i].Lit? ==> ts[i].c == '.' || !IsMeta(ts[i].c)
  }

  lemma RenderHeadIsNotStar(ts: seq<Token>)
    requires Expressible(ts) && ts != []
    ensures |Render(ts)| > 0 && Render(ts)[0] != '*'
  {
    assert Render(ts) == TokenText(ts[0]) + Render(ts[1..]);
  }

  /** Parsing the rendering of an expressible token sequence gives the
      sequence back, so `Parse` and `Render` are inverse to each other. */
  lemma {:induction false} RenderParses(ts: seq<Token>)
    requires Expressible(ts)
    ensures Parse(Render(ts)) == Some(ts)
    decreases |ts|
  {
    if ts != [] {
      var t, rest := ts[0], ts[1..];
      assert forall i :: 0 <= i < |rest| ==> rest[i] == ts[i + 1];
      RenderParses(rest);
      var r := Render(ts);
      assert r == TokenText(t) + Render(rest);
      assert ts == [t] + rest;
      match t
      case Lit(c) =>
        if c == '.' {
          assert r[2..] == Render(rest);
        } else {
          assert r[1..] == Render(rest);
        }
      case Any =>
        assert r[1..] == Render(rest);
        if rest != [] {
          RenderHeadIsNotStar(rest);
        }
      case AnyRun =>
        assert r[2..] == Render(rest);
    }
  }

  /** Full-string match of `s` against a token sequence: the whole of `s`
      is consumed, nothing before or after is skipped. So a sequence
      without `.*` only matches strings of its own length. */
  predicate Full(ts: seq<Token>, s: string): (b: bool)
    ensures b && (forall i :: 0 <= i < |ts| ==> !ts[i].AnyRun?) ==> |s| == |ts|
    decreases |ts| + |s|
  {
    if ts == [] then s == []
    else match ts[0]
      case Lit(c) => |s| > 0 && s[0] == c && Full(ts[1..], s[1..])
      case Any => |s| > 0 && IsDotChar(s[0]) && Full(ts[1..], s[1..])
      case AnyRun => Full(ts[1..], s) || (|s| > 0 && IsDotChar(s[0]) && Full(ts, s[1..]))
  }

  /** `s.matches(pattern)`: the subset semantics when the pattern lies in
      the subset, the engine otherwise. A pattern without metacharacters
      matches only itself; `.*` matches every string free of line
      terminators. */
  predicate FullMatch(engine: Engine, s: string, pattern: string): (b: bool)
    ensures (forall i :: 0 <= i < |pattern| ==> !IsMeta(pattern[i])) ==> (b <==> s == pattern)
    ensures pattern == ".*" ==> (b <==> forall i :: 0 <= i < |s| ==> IsDotChar(s[i]))
  {
    LiteralPatternIsEquality(pattern, s);
    AnyRunAcceptsDotStrings(s);
    assert Parse(".*") == Some([AnyRun]) by {
      assert ".*"[2..] == [];
      assert Parse(".*"[2..]) == Some([]);
      assert [AnyRun] + [] == [AnyRun];
    }
    match Parse(pattern)
    case Some(ts) => Full(ts, s)
    case None => engine(s, pattern)
  }

  /** A pattern without metacharacters lies in the subset and matches
      exactly the string equal to it. */
  lemma LiteralPatternIsEquality(pattern: string, s: string)
    ensures (forall i :: 0 <= i < |pattern| ==> !IsMeta(pattern[i])) ==>
              Parse(pattern).Some? && (Full(Parse(pattern).value, s) <==> s == pattern)
  {
    if forall i :: 0 <= i < |pattern| ==> !IsMeta(pattern[i]) {
      PlainPatternIsEquality(pattern, s);
    }
  }

  lemma {:induction false} PlainPatternIsEquality(pattern: string, s: string)
    requires forall i :: 0 <= i < |pattern| ==> !IsMeta(pattern[i])
    ensures Parse(pattern).Some? && (Full(Parse(pattern).value, s) <==> s == pattern)
    decreases |pattern|
  {
    if pattern != [] {
      var c, tail := pattern[0], pattern[1..];
      assert !IsMeta(c);
      assert forall i :: 0 <= i < |tail| ==> tail[i] == pattern[i + 1];
      var s' := if |s| > 0 then s[1..] else s;
      PlainPatternIsEquality(tail, s');
      var rest := Parse(tail).value;
      assert Parse(pattern) == Some([Lit(c)] + rest);
      FullLitCons(c, rest, s);
      assert s == pattern <==> |s| > 0 && s[0] == c && s' == tail by {
        if |s| > 0 && s[0] == c && s' == tail {
          assert s == [s[0]] + s[1..];
          assert pattern == [c] + tail;
        }
      }
    }
  }

  lemma FullLitCons(c: char, rest: seq<Token>, s: string)
    ensures Full([Lit(c)] + rest, s) <==> |s| > 0 && s[0] == c && Full(rest, s[1..])
  {
    assert ([Lit(c)] + rest)[1..] == rest;
  }

  /** `.*` accepts exactly the strings free of line terminators. */
  lemma {:induction false} AnyRunAcceptsDotStrings(s: string)
    ensures Full([AnyRun], s) <==> forall i :: 0 <= i < |s| ==> IsDotChar(s[i])
    decreases |s|
  {
    if s != [] {
      AnyRunAcceptsDotStrings(s[1..]);
      assert forall i :: 1 <= i < |s| ==> s[i] == s[1..][i - 1];
    }
  }
}
