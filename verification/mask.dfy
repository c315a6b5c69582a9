/** `Finder.matchesMask`: a glob mask is turned into a regular expression
    by three successive `String.replace` calls (`.` to `\.`, then `*` to
    `.*`, then `?` to `.`) and the file name must match all of it.

    The glob theorems are stated for masks free of the other regular
    expression metacharacters; for those, the translation lands in the
    subset of module Regex and its meaning is the glob meaning, with
    Java's proviso that `*` and `?` never stand for a line terminator. */
module Mask {

  import opened Results
  import opened Regex

  /** Number of occurrences of `c` in `s`. */
  function Count(s: string, c: char): nat
    decreases |s|
  {
    if s == [] then 0 else (if s[0] == c then 1 else 0) + Count(s[1..], c)
  }

  /** `s.replace(c, repl)` for a one-character target: every occurrence of
      `c`, scanned left to right, is replaced by `repl`. */
  function ReplaceChar(s: string, c: char, repl: string): (r: string)
    ensures c !in repl ==> c !in r
    ensures c !in s ==> r == s
    decreases |s|
  {
    if s == [] then []
    else (if s[0] == c then repl else [s[0]]) + ReplaceChar(s[1..], c, repl)
  }

  /** The three `String.replace` calls of `matchesMask`, in the order the
      Java code makes them. */
  function ReplaceChain(mask: string): string {
    ReplaceChar(ReplaceChar(ReplaceChar(mask, '.', "\\."), '*', ".*"), '?', ".")
  }

  /** The regular expression `matchesMask` builds from a mask. Because the
      dots are escaped first, it is the mask read character by character,
      and one character longer than the mask for every `.` and `*`. */
  function Translate(mask: string): (r: string)
    ensures r == Expand(mask)
    ensures |r| == |mask| + Count(mask, '.') + Count(mask, '*')
  {
    ReplaceChainIsCharwise(mask);
    ExpandLength(mask);
    ReplaceChain(mask)
  }

  /** What one mask character stands for in the regular expression. */
  function RegexPiece(c: char): string {
    if c == '.' then "\\."
    else if c == '*' then ".*"
    else if c == '?' then "."
    else [c]
  }

  /** The character-by-character reading of the translation. */
  function Expand(mask: string): string
    decreases |mask|
  {
    if mask == [] then [] else RegexPiece(mask[0]) + Expand(mask[1..])
  }

  /** `fileName.matches(Translate(mask))`. For a mask free of other regex
      metacharacters this is glob matching of the whole name, whatever the
      regex engine does outside the subset. */
  predicate MatchesMask(engine: Engine, fileName: string, mask: string): (b: bool)
    ensures MetaFree(mask) ==> (b <==> GlobMatch(mask, fileName))
  {
    TranslationIsGlob(engine, fileName, mask);
    FullMatch(engine, fileName, Translate(mask))
  }

  /** A mask whose only regex metacharacters are `.`, `*` and `?`. */
  predicate MetaFree(mask: string) {
    forall i :: 0 <= i < |mask| ==> !IsMeta(mask[i]) || mask[i] in ".*?"
  }

  /** Glob matching read directly off the mask: `*` stands for any run of
      characters, `?` for exactly one, every other character for itself;
      the wildcards never stand for a line terminator. */
  predicate GlobMatch(mask: string, s: string)
    decreases |mask| + |s|
  {
    if mask == [] then s == []
    else if mask[0] == '*' then
      GlobMatch(mask[1..], s) || (|s| > 0 && IsDotChar(s[0]) && GlobMatch(mask, s[1..]))
    else if mask[0] == '?' then
      |s| > 0 && IsDotChar(s[0]) && GlobMatch(mask[1..], s[1..])
    else
      |s| > 0 && s[0] == mask[0] && GlobMatch(mask[1..], s[1..])
  }

  /** The tokens a mask denotes. */
  function GlobToken(c: char): Token {
    if c == '*' then AnyRun else if c == '?' then Any else Lit(c)
  }

  function GlobTokens(mask: string): seq<Token>
    decreases |mask|
  {
    if mask == [] then [] else [GlobToken(mask[0])] + GlobTokens(mask[1..])
  }

  function Repeat(c: char, n: nat): string
    decreases n
  {
    if n == 0 then [] else [c] + Repeat(c, n - 1)
  }

  // ---------------------------------------------------------------------
  // The translation

  lemma {:induction false} ReplaceCharAppend(a: string, b: string, c: char, repl: string)
    ensures ReplaceChar(a + b, c, repl) == ReplaceChar(a, c, repl) + ReplaceChar(b, c, repl)
    decreases |a|
  {
    if a != [] {
      var head := if a[0] == c then repl else [a[0]];
      calc {
        ReplaceChar(a + b, c, repl);
        { assert (a + b)[0] == a[0]; assert (a + b)[1..] == a[1..] + b; }
        head + ReplaceChar(a[1..] + b, c, repl);
        { ReplaceCharAppend(a[1..], b, c, repl); }
        head + (ReplaceChar(a[1..], c, repl) + ReplaceChar(b, c, repl));
      }
    } else {
      assert a + b == b;
    }
  }

  /** The three replacements on a single character. */
  lemma ReplaceChainOneChar(c: char)
    ensures ReplaceChain([c]) == RegexPiece(c)
  {
  }

  lemma ReplaceChainAppend(a: string, b: string)
    ensures ReplaceChain(a + b) == ReplaceChain(a) + ReplaceChain(b)
  {
    var r1, r2 := ReplaceChar(a, '.', "\\."), ReplaceChar(b, '.', "\\.");
    ReplaceCharAppend(a, b, '.', "\\.");
    var s1, s2 := ReplaceChar(r1, '*', ".*"), ReplaceChar(r2, '*', ".*");
    ReplaceCharAppend(r1, r2, '*', ".*");
    ReplaceCharAppend(s1, s2, '?', ".");
  }

  /** Escaping comes first, so the three replacements act on each mask
      character independently: a dot that `*` or `?` introduces is never
      escaped, and every other character is copied unchanged. */
  lemma {:induction false} ReplaceChainIsCharwise(mask: string)
    ensures ReplaceChain(mask) == Expand(mask)
    decreases |mask|
  {
    if mask != [] {
      assert mask == [mask[0]] + mask[1..];
      ReplaceChainAppend([mask[0]], mask[1..]);
      ReplaceChainOneChar(mask[0]);
      ReplaceChainIsCharwise(mask[1..]);
    }
  }

  lemma {:induction false} ExpandLength(mask: string)
    ensures |Expand(mask)| == |mask| + Count(mask, '.') + Count(mask, '*')
    decreases |mask|
  {
    if mask != [] {
      ExpandLength(mask[1..]);
    }
  }

  /** Applying the replacements the other way round would escape the dot
      that `*` introduces: the order of the calls in `matchesMask` matters. */
  lemma OtherOrderEscapesWildcards()
    ensures Translate("*") == ".*"
    ensures ReplaceChar(ReplaceChar(ReplaceChar("*", '*', ".*"), '?', "."), '.', "\\.") == "\\.*"
  {
    assert Expand("*") == ".*" by {
      assert "*"[1..] == [];
    }
    ReplaceCharOne('*', '*', ".*");
    ReplaceCharAppend(".", "*", '?', ".");
    ReplaceCharOne('.', '?', ".");
    ReplaceCharOne('*', '?', ".");
    assert ".*" == "." + "*";
    ReplaceCharAppend(".", "*", '.', "\\.");
    ReplaceCharOne('.', '.', "\\.");
    ReplaceCharOne('*', '.', "\\.");
  }

  lemma ReplaceCharOne(x: char, c: char, repl: string)
    ensures ReplaceChar([x], c, repl) == if x == c then repl else [x]
  {
    assert [x][1..] == [];
  }

  // ---------------------------------------------------------------------
  // The translation lands in the subset and means the glob

  lemma {:induction false} ExpandHeadIsNotStar(mask: string)
    ensures |Expand(mask)| > 0 ==> Expand(mask)[0] != '*'
  {
    if mask != [] {
      assert Expand(mask)[0] == RegexPiece(mask[0])[0];
    }
  }

  lemma {:induction false} ParseExpand(mask: string)
    requires MetaFree(mask)
    ensures Parse(Expand(mask)) == Some(GlobTokens(mask))
    decreases |mask|
  {
    if mask != [] {
      var c, rest := mask[0], Expand(mask[1..]);
      var r := Expand(mask);
      assert MetaFree(mask[1..]) by {
        forall i | 0 <= i < |mask[1..]|
          ensures !IsMeta(mask[1..][i]) || mask[1..][i] in ".*?"
        {
          assert mask[1..][i] == mask[i + 1];
        }
      }
      ParseExpand(mask[1..]);
      ExpandHeadIsNotStar(mask[1..]);
      assert r == RegexPiece(c) + rest;
      if c == '.' {
        assert r[2..] == rest;
      } else if c == '*' {
        assert r[2..] == rest;
      } else if c == '?' {
        assert r[1..] == rest;
        assert |r| >= 2 ==> r[1] == rest[0];
      } else {
        assert !IsMeta(c) by { assert c == mask[0]; }
        assert r[1..] == rest;
      }
    }
  }

  lemma {:induction false} FullGlobTokens(mask: string, s: string)
    ensures Full(GlobTokens(mask), s) == GlobMatch(mask, s)
    decreases |mask| + |s|
  {
    if mask != [] {
      var ts := GlobTokens(mask);
      assert ts[1..] == GlobTokens(mask[1..]);
      FullGlobTokens(mask[1..], s);
      if |s| > 0 {
        FullGlobTokens(mask[1..], s[1..]);
        if mask[0] == '*' {
          FullGlobTokens(mask, s[1..]);
        }
      }
    }
  }

  /** The central theorem: for a mask free of other metacharacters, a full
      match against the translation is glob matching. */
  lemma TranslationIsGlob(engine: Engine, fileName: string, mask: string)
    ensures MetaFree(mask) ==> (FullMatch(engine, fileName, Translate(mask)) <==> GlobMatch(mask, fileName))
  {
    if MetaFree(mask) {
      ParseExpand(mask);
      FullGlobTokens(mask, fileName);
    }
  }

  // ---------------------------------------------------------------------
  // Consequences

  lemma {:induction false} GlobLiteral(mask: string, s: string)
    requires '*' !in mask && '?' !in mask
    ensures GlobMatch(mask, s) <==> s == mask
    decreases |mask|
  {
    if mask != [] {
      assert mask[0] in mask;
      assert forall c :: c in mask[1..] ==> c in mask;
      if |s| > 0 {
        GlobLiteral(mask[1..], s[1..]);
        if s[0] == mask[0] && s[1..] == mask[1..] {
          assert s == [s[0]] + s[1..];
          assert mask == [mask[0]] + mask[1..];
        }
      }
    }
  }

  /** A mask without wildcards matches exactly the file name equal to it;
      the match is anchored, so a name with anything added before or after
      does not match. */
  lemma LiteralMaskIsEquality(engine: Engine, fileName: string, mask: string)
    requires MetaFree(mask) && '*' !in mask && '?' !in mask
    ensures MatchesMask(engine, fileName, mask) <==> fileName == mask
  {
    GlobLiteral(mask, fileName);
  }

  lemma {:induction false} GlobWithoutStarIsAnchored(mask: string, s: string)
    requires '*' !in mask
    requires GlobMatch(mask, s)
    ensures |s| == |mask|
    decreases |mask|
  {
    if mask != [] {
      assert forall c :: c in mask[1..] ==> c in mask;
      GlobWithoutStarIsAnchored(mask[1..], s[1..]);
    }
  }

  /** Without `*` the mask fixes the length of every name it matches. */
  lemma MaskWithoutStarIsAnchored(engine: Engine, fileName: string, mask: string)
    requires MetaFree(mask) && '*' !in mask
    requires MatchesMask(engine, fileName, mask)
    ensures |fileName| == |mask|
  {
    GlobWithoutStarIsAnchored(mask, fileName);
  }

  lemma {:induction false} GlobStar(s: string)
    ensures GlobMatch("*", s) <==> forall i :: 0 <= i < |s| ==> IsDotChar(s[i])
    decreases |s|
  {
    if s != [] {
      GlobStar(s[1..]);
      assert forall i :: 1 <= i < |s| ==> s[i] == s[1..][i - 1];
    }
  }

  /** Mask `*` matches every name, the empty one included, that holds no
      line terminator. */
  lemma StarMatchesEveryName(engine: Engine, fileName: string)
    ensures MatchesMask(engine, fileName, "*") <==> forall i :: 0 <= i < |fileName| ==> IsDotChar(fileName[i])
  {
    GlobStar(fileName);
  }

  lemma {:induction false} GlobQuestionMarks(n: nat, s: string)
    ensures GlobMatch(Repeat('?', n), s) <==> |s| == n && forall i :: 0 <= i < |s| ==> IsDotChar(s[i])
    decreases n
  {
    if n > 0 {
      assert Repeat('?', n)[1..] == Repeat('?', n - 1);
      if |s| > 0 {
        GlobQuestionMarks(n - 1, s[1..]);
        assert forall i :: 1 <= i < |s| ==> s[i] == s[1..][i - 1];
      }
    }
  }

  lemma {:induction false} RepeatContains(c: char, n: nat, d: char)
    ensures d in Repeat(c, n) ==> d == c
    decreases n
  {
    if n > 0 {
      RepeatContains(c, n - 1, d);
    }
  }

  /** A mask of n question marks matches exactly the names of length n
      that hold no line terminator. */
  lemma QuestionMarksMatchLength(engine: Engine, fileName: string, n: nat)
    ensures MatchesMask(engine, fileName, Repeat('?', n)) <==>
              |fileName| == n && forall i :: 0 <= i < |fileName| ==> IsDotChar(fileName[i])
  {
    var mask := Repeat('?', n);
    assert MetaFree(mask) by {
      forall i | 0 <= i < |mask| ensures mask[i] == '?' {
        RepeatContains('?', n, mask[i]);
      }
    }
    GlobQuestionMarks(n, fileName);
  }

  /** A wildcard-free prefix of the mask must be matched literally by the
      same prefix of the name. */
  lemma {:induction false} GlobLiteralPrefix(lit: string, mask: string, s: string)
    requires '*' !in lit && '?' !in lit
    ensures GlobMatch(lit + mask, s) <==>
              |s| >= |lit| && s[..|lit|] == lit && GlobMatch(mask, s[|lit|..])
    decreases |lit|
  {
    if lit != [] {
      assert (lit + mask)[0] == lit[0];
      assert (lit + mask)[1..] == lit[1..] + mask;
      assert forall c :: c in lit[1..] ==> c in lit;
      assert lit[0] in lit;
      if |s| > 0 {
        GlobLiteralPrefix(lit[1..], mask, s[1..]);
        if |s| >= |lit| {
          assert s[1..][|lit| - 1..] == s[|lit|..];
          assert s[..|lit|] == [s[0]] + s[1..][..|lit| - 1];
          assert lit == [lit[0]] + lit[1..];
          assert s[..|lit|] == lit <==> s[0] == lit[0] && s[1..][..|lit| - 1] == lit[1..] by {
            if s[..|lit|] == lit {
              assert s[..|lit|][0] == s[0];
              assert s[..|lit|][1..] == s[1..][..|lit| - 1];
            }
          }
        }
      }
    } else {
      assert lit + mask == mask;
      assert s[..0] == lit;
      assert s[0..] == s;
    }
  }

  /** A leading `*` may absorb any run of characters that are not line
      terminators. */
  lemma {:induction false} GlobStarAbsorbs(w: string, mask: string, s: string)
    requires forall i :: 0 <= i < |w| ==> IsDotChar(w[i])
    requires GlobMatch(mask, s)
    ensures GlobMatch("*" + mask, w + s)
    decreases |w|
  {
    assert ("*" + mask)[0] == '*';
    assert ("*" + mask)[1..] == mask;
    if w == [] {
      assert w + s == s;
    } else {
      GlobStarAbsorbs(w[1..], mask, s);
      assert (w + s)[0] == w[0];
      assert (w + s)[1..] == w[1..] + s;
      assert IsDotChar(w[0]);
    }
  }
}
