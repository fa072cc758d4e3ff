/** The sentinel escapes of the converter. Before its patterns run, comment ends
    become `~`, the closing brace of every outermost block becomes `@` and the
    keywords `var` and `const` become `&`, so that a pattern can stop at the next
    such character. A sentinel already in the text is first written out as a long
    token, so that unescaping can restore it. */
module Escaping {
  import opened Text
  import opened Matching

  const WildCard: string := ":*"
  const CommentEnd: string := "*/"
  const CommentEndEscape: char := '~'
  const CommentEndEscapeEscape: string := "commentEndEscapeEscape"
  const BlockBegin: char := '{'
  const FunctionEnd: char := '}'
  const FunctionEndEscape: char := '@'
  const FunctionEndEscapeEscape: string := "functionEndEscapeEscape"
  const Var: string := "var"
  const Const: string := "const"
  const VarEscape: char := '&'
  const VarEscapeEscape: string := "<varEscapeEscape>"

  // ---------------------------------------------------------------------------
  // The escape tokens

  /** The comment token cannot overlap itself. */
  lemma CommentTokenNoBorder()
    ensures NoBorder(CommentEndEscapeEscape)
  {
    var ct := CommentEndEscapeEscape;
    forall k | 0 < k < |ct| ensures !Compatible(ct[k..], ct) {
      if ct[k] != ct[0] {
        assert ct[k..][0] != ct[0];
      } else {
        assert ct[k..][1] != ct[1];
      }
    }
  }

  /** The function-end token cannot overlap itself: its first letter occurs nowhere else. */
  lemma FunctionTokenNoBorder()
    ensures NoBorder(FunctionEndEscapeEscape)
  {
    var ft := FunctionEndEscapeEscape;
    forall k | 0 < k < |ft| ensures !Compatible(ft[k..], ft) {
      assert ft[k..][0] != ft[0];
    }
  }

  /** No suffix of the function-end token begins the comment token. */
  lemma FunctionTokenUnentangled()
    ensures Unentangled(FunctionEndEscapeEscape, CommentEndEscapeEscape)
  {
    var ct, ft := CommentEndEscapeEscape, FunctionEndEscapeEscape;
    forall k | 0 < k < |ft| ensures !Compatible(ft[k..], ct) {
      if ft[k] != ct[0] {
        assert ft[k..][0] != ct[0];
      } else {
        assert ft[k..][1] != ct[1];
      }
    }
  }

  /** The written-out `&` cannot overlap itself: `<` occurs in it only first. */
  lemma VarTokenNoBorder()
    ensures NoBorder(VarEscapeEscape) && VarEscape !in VarEscapeEscape
  {
    var vt := VarEscapeEscape;
    forall k | 0 < k < |vt| ensures !Compatible(vt[k..], vt) {
      assert vt[k..][0] != vt[0];
    }
  }

  lemma TokenChars()
    ensures CommentEndEscape !in CommentEndEscapeEscape && CommentEndEscape !in FunctionEndEscapeEscape
    ensures FunctionEndEscape !in CommentEndEscapeEscape && FunctionEndEscape !in FunctionEndEscapeEscape
    ensures FunctionEnd !in CommentEndEscapeEscape
  {
  }

  // ---------------------------------------------------------------------------
  // Wildcard types

  /** `_escapeWildCard`: every `:*` type annotation removed. */
  function EscapeWildCard(s: string): (r: string)
    ensures |r| <= |s|
  {
    ReplaceShortens(s, WildCard, "");
    ReplaceAll(s, WildCard, "")
  }

  /** The wildcard escape leaves a text alone exactly when it holds no `:*`. */
  lemma WildCardUnchanged(s: string)
    ensures EscapeWildCard(s) == s <==> !Occurs(s, WildCard)
  {
    ReplaceShortens(s, WildCard, "");
    if !Occurs(s, WildCard) {
      ReplaceAbsent(s, WildCard, "");
    }
  }

  // ---------------------------------------------------------------------------
  // Outermost function ends

  function Step(c: char): int {
    if c == BlockBegin then 1 else if c == FunctionEnd then -1 else 0
  }

  /** The running count of `{` minus `}` over a text. */
  function Depth(s: string): int {
    if |s| == 0 then 0 else Depth(s[..|s| - 1]) + Step(s[|s| - 1])
  }

  /** The `}` at `k` closes an outermost block: with it the running count is back at zero. */
  predicate ClosesOutermost(s: string, k: nat)
    requires k < |s|
  {
    s[k] == FunctionEnd && Depth(s[..k + 1]) == 0
  }

  /** The brace marking, scanning from the left with running count `depth`. */
  function MarkFrom(s: string, depth: int): (r: string)
    ensures |r| == |s|
  {
    if |s| == 0 then ""
    else
      var d := depth + Step(s[0]);
      [if s[0] == FunctionEnd && d == 0 then FunctionEndEscape else s[0]] + MarkFrom(s[1..], d)
  }

  /** The text `_escapeFunctionEnd` returns: `@` written out as its token, then every
      outermost closing brace marked `@`. */
  function MarkFunctionEnds(content: string): string {
    MarkFrom(ReplaceAll(content, [FunctionEndEscape], FunctionEndEscapeEscape), 0)
  }

  lemma {:induction false} DepthCons(x: char, t: string)
    ensures Depth([x] + t) == Step(x) + Depth(t)
    decreases |t|
  {
    var u := [x] + t;
    if |t| == 0 {
      assert u[..0] == [];
    } else {
      assert u[..|u| - 1] == [x] + t[..|t| - 1];
      DepthCons(x, t[..|t| - 1]);
    }
  }

  /** Marking changes a character only when it is a `}` that brings the count to zero,
      and then into `@`. */
  lemma {:induction false} MarkPointwise(s: string, depth: int, k: nat)
    requires k < |s|
    ensures MarkFrom(s, depth)[k]
         == if s[k] == FunctionEnd && depth + Depth(s[..k + 1]) == 0 then FunctionEndEscape else s[k]
    decreases k
  {
    DepthCons(s[0], s[1..][..k]);
    assert s[..k + 1] == [s[0]] + s[1..][..k];
    if k > 0 {
      MarkPointwise(s[1..], depth + Step(s[0]), k - 1);
    }
  }

  /** The characterisation of `_escapeFunctionEnd`: the length is kept, and after `@`
      is written out as its token only the outermost closing braces change, into `@`. */
  lemma FunctionEndsPointwise(content: string)
    ensures var e := ReplaceAll(content, [FunctionEndEscape], FunctionEndEscapeEscape);
      && |MarkFunctionEnds(content)| == |e|
      && forall k | 0 <= k < |e| ::
           MarkFunctionEnds(content)[k] == if ClosesOutermost(e, k) then FunctionEndEscape else e[k]
  {
    var e := ReplaceAll(content, [FunctionEndEscape], FunctionEndEscapeEscape);
    forall k | 0 <= k < |e|
      ensures MarkFunctionEnds(content)[k] == if ClosesOutermost(e, k) then FunctionEndEscape else e[k]
    {
      MarkPointwise(e, 0, k);
    }
  }

  /** The count of a non-empty text, from its first character. */
  lemma DepthHead(a: string)
    requires |a| > 0
    ensures Depth(a) == Step(a[0]) + Depth(a[1..])
  {
    assert a == [a[0]] + a[1..];
    DepthCons(a[0], a[1..]);
  }

  /** Marking splits over a concatenation, the second part starting at the count the first ends at. */
  lemma {:induction false} MarkConcat(a: string, b: string, depth: int)
    ensures MarkFrom(a + b, depth) == MarkFrom(a, depth) + MarkFrom(b, depth + Depth(a))
    decreases |a|
  {
    if |a| == 0 {
      assert a + b == b;
    } else {
      var d := depth + Step(a[0]);
      var x := if a[0] == FunctionEnd && d == 0 then FunctionEndEscape else a[0];
      var t := a[1..];
      assert (a + b)[0] == a[0] && (a + b)[1..] == t + b;
      MarkConcat(t, b, d);
      DepthHead(a);
      Assoc([x], MarkFrom(t, d), MarkFrom(b, d + Depth(t)));
    }
  }

  /** A text without braces is neither marked nor changes the count. */
  lemma {:induction false} MarkNoBraces(a: string, depth: int)
    requires BlockBegin !in a && FunctionEnd !in a
    ensures MarkFrom(a, depth) == a && Depth(a) == 0
    decreases |a|
  {
    if |a| > 0 {
      assert a == [a[0]] + a[1..];
      assert forall y | y in a[1..] :: y in a;
      MarkNoBraces(a[1..], depth);
      DepthCons(a[0], a[1..]);
    }
  }

  /** Turning every `@` back into `}` undoes the marking of a text that had no `@`. */
  lemma {:induction false} UnmarkMark(d: string, depth: int)
    requires FunctionEndEscape !in d
    ensures ReplaceAll(MarkFrom(d, depth), [FunctionEndEscape], [FunctionEnd]) == d
    decreases |d|
  {
    if |d| > 0 {
      var n := depth + Step(d[0]);
      var x := if d[0] == FunctionEnd && n == 0 then FunctionEndEscape else d[0];
      ReplaceCharCons(x, MarkFrom(d[1..], n), FunctionEndEscape, [FunctionEnd]);
      assert forall y | y in d[1..] :: y in d;
      UnmarkMark(d[1..], n);
      assert d == [d[0]] + d[1..];
    }
  }

  /** The count after one more character. */
  lemma DepthStep(s: string, c: nat)
    requires c < |s|
    ensures Depth(s[..c + 1]) == Depth(s[..c]) + Step(s[c])
  {
    assert s[..c + 1][..c] == s[..c];
  }

  /** The loop of `_escapeFunctionEnd`: a copy of `escaped` as a character array in
      which a running count of braces decides which `}` becomes `@`. */
  method MarkOutermost(escaped: string) returns (r: string)
    ensures |r| == |escaped|
    ensures forall k | 0 <= k < |escaped| ::
      r[k] == if ClosesOutermost(escaped, k) then FunctionEndEscape else escaped[k]
  {
    var characters := new char[|escaped|](k requires 0 <= k < |escaped| => escaped[k]);
    var depth := 0;
    var c := 0;
    while c < characters.Length
      invariant 0 <= c <= characters.Length == |escaped|
      invariant depth == Depth(escaped[..c])
      invariant forall k | 0 <= k < c ::
        characters[k] == if ClosesOutermost(escaped, k) then FunctionEndEscape else escaped[k]
      invariant forall k | c <= k < |escaped| :: characters[k] == escaped[k]
    {
      var character := characters[c];
      DepthStep(escaped, c);
      if BlockBegin == character {
        depth := depth + 1;
      } else if FunctionEnd == character {
        depth := depth - 1;
        if 0 == depth {
          characters[c] := FunctionEndEscape;
        }
      }
      c := c + 1;
    }
    r := characters[..];
  }

  /** `_escapeFunctionEnd` (as2js.py:112-140). */
  method EscapeFunctionEnd(klassContent: string) returns (r: string)
    ensures r == MarkFunctionEnds(klassContent)
    ensures var e := ReplaceAll(klassContent, [FunctionEndEscape], FunctionEndEscapeEscape);
      && |r| == |e|
      && forall k | 0 <= k < |e| :: r[k] == if ClosesOutermost(e, k) then FunctionEndEscape else e[k]
  {
    var escaped := ReplaceAll(klassContent, [FunctionEndEscape], FunctionEndEscapeEscape);
    r := MarkOutermost(escaped);
    FunctionEndsPointwise(klassContent);
  }

  // ---------------------------------------------------------------------------
  // Comment ends and function ends

  /** `_escapeEnds`: wildcards removed, `~` written out as its token, comment ends
      turned into `~`, then the function ends escaped. */
  function EscapeEnds(original: string): string {
    var commentEscaped := ReplaceAll(
      ReplaceAll(EscapeWildCard(original), [CommentEndEscape], CommentEndEscapeEscape),
      CommentEnd, [CommentEndEscape]);
    MarkFunctionEnds(commentEscaped)
  }

  /** `_unescapeEnds`: each escape turned back, each written-out sentinel restored. */
  function UnescapeEnds(safe: string): string {
    ReplaceAll(ReplaceAll(ReplaceAll(ReplaceAll(safe,
      [CommentEndEscape], CommentEnd),
      CommentEndEscapeEscape, [CommentEndEscape]),
      [FunctionEndEscape], [FunctionEnd]),
      FunctionEndEscapeEscape, [FunctionEndEscape])
  }

  /** Unescaping never empties a text: every replacement is non-empty. */
  lemma UnescapeEndsNonEmpty(safe: string)
    ensures |safe| > 0 ==> |UnescapeEnds(safe)| > 0
  {
    if |safe| > 0 {
      var a := ReplaceAll(safe, [CommentEndEscape], CommentEnd);
      ReplaceNonEmpty(safe, [CommentEndEscape], CommentEnd);
      var b := ReplaceAll(a, CommentEndEscapeEscape, [CommentEndEscape]);
      ReplaceNonEmpty(a, CommentEndEscapeEscape, [CommentEndEscape]);
      var c := ReplaceAll(b, [FunctionEndEscape], [FunctionEnd]);
      ReplaceNonEmpty(b, [FunctionEndEscape], [FunctionEnd]);
      ReplaceNonEmpty(c, FunctionEndEscapeEscape, [FunctionEndEscape]);
    }
  }

  /** Unescaping restores any text that holds no wildcard type and neither written-out
      sentinel token; a `~` or `@` of the text survives through its token. */
  lemma EndsRoundTrip(x: string)
    requires !Occurs(x, WildCard)
    requires !Occurs(x, CommentEndEscapeEscape) && !Occurs(x, FunctionEndEscapeEscape)
    ensures UnescapeEnds(EscapeEnds(x)) == x
  {
    CommentTokenNoBorder();
    FunctionTokenNoBorder();
    FunctionTokenUnentangled();
    TokenChars();
    var t1, t2 := CommentEndEscapeEscape, FunctionEndEscapeEscape;
    ReplaceAbsent(x, WildCard, "");
    var x1 := ReplaceAll(x, [CommentEndEscape], t1);
    var c := ReplaceAll(x1, CommentEnd, [CommentEndEscape]);
    var d := ReplaceAll(c, [FunctionEndEscape], t2);
    var mk := MarkFrom(d, 0);
    var u1 := ReplaceAll(mk, [CommentEndEscape], CommentEnd);
    // the brace unescape moves inwards past the comment unescapes
    MapCommutesContract(u1, FunctionEndEscape, FunctionEnd, t1, CommentEndEscape);
    ReplaceCharsCommute(mk, CommentEndEscape, CommentEnd, FunctionEndEscape, [FunctionEnd]);
    // and there undoes the marking
    ReplaceRemovesChar(c, FunctionEndEscape, t2);
    UnmarkMark(d, 0);
    // the comment-end unescape undoes the comment-end escape
    ReplaceCharsCommute(c, FunctionEndEscape, t2, CommentEndEscape, CommentEnd);
    ReplaceRemovesChar(x, CommentEndEscape, t1);
    ContractRoundTrip(x1, CommentEnd, CommentEndEscape);
    // the two token expansions are undone in turn
    ReplaceCharsCommute(x, CommentEndEscape, t1, FunctionEndEscape, t2);
    var x2 := ReplaceAll(x, [FunctionEndEscape], t2);
    ExpandKeepsAbsent(x, FunctionEndEscape, t2, t1);
    ExpandRoundTrip(x2, CommentEndEscape, t1);
    ExpandRoundTrip(x, FunctionEndEscape, t2);
  }

  /** Without the wildcard requirement the round trip fails: a `:*` does not come back. */
  lemma WildCardLost()
    ensures UnescapeEnds(EscapeEnds(WildCard)) == ""
  {
    assert OccursAt(WildCard, WildCard, 0);
    assert WildCard[|WildCard|..] == "";
    assert EscapeWildCard(WildCard) == "";
  }

  // ---------------------------------------------------------------------------
  // The var keyword

  predicate IsKeyword(w: string) {
    w == Var || w == Const
  }

  /** `re.sub(r'(?:\bvar\b|\bconst\b)', rep, s)`. Between word boundaries lie maximal
      runs of word characters, so the substitution replaces every run that is exactly
      `var` or `const`. */
  function SubKeywords(s: string, rep: string): string
    decreases |s|
  {
    if |s| == 0 then ""
    else if IsWordChar(s[0]) then
      var e := SpanEnd(s, 0, IsWordChar);
      (if IsKeyword(s[..e]) then rep else s[..e]) + SubKeywords(s[e..], rep)
    else [s[0]] + SubKeywords(s[1..], rep)
  }

  /** `\b` + `w` + `\b` at `i`. */
  predicate WholeWordAt(s: string, w: string, i: nat) {
    && OccursAt(s, w, i)
    && (i == 0 || !IsWordChar(s[i - 1]))
    && (i + |w| == |s| || !IsWordChar(s[i + |w|]))
  }

  /** The pattern `\bvar\b|\bconst\b` tried at `i`. */
  function KeywordAt(s: string, i: nat): (r: Option<Span<()>>)
    ensures r.Some? <==> WholeWordAt(s, Var, i) || WholeWordAt(s, Const, i)
    ensures r.Some? ==> r.value.end == i + 3 || r.value.end == i + 5
  {
    if WholeWordAt(s, Var, i) then Some(Span(i + 3, ()))
    else if WholeWordAt(s, Const, i) then Some(Span(i + 5, ()))
    else None
  }

  /** The replacement of a pattern without groups. */
  function Constant(rep: string): (()) -> string {
    (u: ()) => rep
  }

  /** A run of word characters followed by a non-word character or the end. */
  lemma RunSplit(run: string, u: string, rep: string)
    requires |run| > 0 && AllWord(run)
    requires |u| == 0 || !IsWordChar(u[0])
    ensures SubKeywords(run + u, rep) == (if IsKeyword(run) then rep else run) + SubKeywords(u, rep)
  {
    var s := run + u;
    SpanEndUnique(s, 0, IsWordChar, |run|);
    assert s[..|run|] == run && s[|run|..] == u;
  }

  lemma NonWordCons(c: char, u: string, rep: string)
    requires !IsWordChar(c)
    ensures SubKeywords([c] + u, rep) == [c] + SubKeywords(u, rep)
  {
    assert ([c] + u)[1..] == u;
  }

  /** A word that `SpanEnd` does not find at `i` is not a whole word there. */
  lemma NotWholeWord(s: string, w: string, i: nat)
    requires i < |s| && |w| > 0 && AllWord(w)
    requires s[i..SpanEnd(s, i, IsWordChar)] != w
    ensures !WholeWordAt(s, w, i)
  {
    if i + |w| <= |s| && s[i..i + |w|] == w {
      assert forall k | i <= k < i + |w| :: IsWordChar(s[k]) by {
        assert forall k | i <= k < i + |w| :: s[k] == w[k - i];
      }
    }
  }

  /** The keyword pattern matches at the start of a run exactly when the run is a keyword,
      and then up to the run's end. */
  lemma KeywordAtRun(s: string, i: nat)
    requires i < |s| && IsWordChar(s[i]) && (i == 0 || !IsWordChar(s[i - 1]))
    ensures var e := SpanEnd(s, i, IsWordChar);
      MatchAt(KeywordAt, s, i) == if IsKeyword(s[i..e]) then Some(Span(e, ())) else None
  {
    var e := SpanEnd(s, i, IsWordChar);
    var run := s[i..e];
    assert AllWord(Var) && AllWord(Const);
    if run == Var {
      assert WholeWordAt(s, Var, i);
    } else if run == Const {
      NotWholeWord(s, Var, i);
      assert WholeWordAt(s, Const, i);
    } else {
      NotWholeWord(s, Var, i);
      NotWholeWord(s, Const, i);
    }
  }

  /** The run step of `SubKeywordsFrom`, on the side of `re.sub`. */
  lemma SubKeywordsRunStep(s: string, i: nat, rep: string)
    requires i < |s| && IsWordChar(s[i]) && (i == 0 || !IsWordChar(s[i - 1]))
    ensures var e := SpanEnd(s, i, IsWordChar);
      SubFrom(KeywordAt, s, i, Constant(rep))
      == (if IsKeyword(s[i..e]) then rep else s[i..e]) + SubFrom(KeywordAt, s, e, Constant(rep))
  {
    var e := SpanEnd(s, i, IsWordChar);
    KeywordAtRun(s, i);
    if IsKeyword(s[i..e]) {
      SubFromUnfold(KeywordAt, s, i, Constant(rep));
    } else {
      assert forall k | i <= k < e :: MatchAt(KeywordAt, s, k).None?;
      SubFromSkip(KeywordAt, s, i, e, Constant(rep));
    }
  }

  /** The run step of `SubKeywordsFrom`, on the side of the run-wise definition. */
  lemma SubKeywordsSuffix(s: string, i: nat, rep: string)
    requires i < |s| && IsWordChar(s[i])
    ensures var e := SpanEnd(s, i, IsWordChar);
      SubKeywords(s[i..], rep) == (if IsKeyword(s[i..e]) then rep else s[i..e]) + SubKeywords(s[e..], rep)
  {
    var e := SpanEnd(s, i, IsWordChar);
    var t := s[i..];
    SpanEndUnique(t, 0, IsWordChar, e - i);
    assert t[..e - i] == s[i..e] && t[e - i..] == s[e..];
  }

  /** `SubKeywords` is `re.sub` of the keyword pattern, scanned from any position that
      is not inside a word. */
  lemma {:induction false} SubKeywordsFrom(s: string, i: nat, rep: string)
    requires i <= |s|
    requires i == 0 || i == |s| || !IsWordChar(s[i - 1]) || !IsWordChar(s[i])
    ensures SubFrom(KeywordAt, s, i, Constant(rep)) == SubKeywords(s[i..], rep)
    decreases |s| - i
  {
    if i < |s| {
      if !IsWordChar(s[i]) {
        assert Var[0] == 'v' && Const[0] == 'c';
        assert MatchAt(KeywordAt, s, i).None?;
        SubFromCopy(KeywordAt, s, i, Constant(rep));
        NonWordCons(s[i], s[i + 1..], rep);
        assert s[i..] == [s[i]] + s[i + 1..];
        SubKeywordsFrom(s, i + 1, rep);
      } else {
        SubKeywordsRunStep(s, i, rep);
        SubKeywordsSuffix(s, i, rep);
        SubKeywordsFrom(s, SpanEnd(s, i, IsWordChar), rep);
      }
    }
  }

  /** The run-wise definition is the regular-expression substitution. */
  lemma SubKeywordsIsRegexSub(s: string, rep: string)
    ensures SubKeywords(s, rep) == Sub(KeywordAt, s, Constant(rep))
  {
    SubKeywordsFrom(s, 0, rep);
    assert s[0..] == s;
  }

  /** `_escapeLocal`: wildcards removed, `&` written out as its token, each keyword
      turned into `&`. */
  function EscapeLocal(original: string): string {
    SubKeywords(ReplaceAll(EscapeWildCard(original), [VarEscape], VarEscapeEscape), [VarEscape])
  }

  /** `_unescapeLocal`: each `&` back to `var`, each written-out `&` restored. */
  function UnescapeLocal(safe: string): string {
    ReplaceAll(ReplaceAll(safe, [VarEscape], Var), VarEscapeEscape, [VarEscape])
  }

  /** Turning the keyword escapes into `var` is substituting `var` for the keywords. */
  lemma {:induction false} KeywordRep(z: string)
    requires VarEscape !in z
    ensures ReplaceAll(SubKeywords(z, [VarEscape]), [VarEscape], Var) == SubKeywords(z, Var)
    decreases |z|
  {
    if |z| > 0 {
      if IsWordChar(z[0]) {
        var e := SpanEnd(z, 0, IsWordChar);
        var run, rest := z[..e], z[e..];
        assert forall y | y in rest :: y in z;
        KeywordRep(rest);
        var piece := if IsKeyword(run) then [VarEscape] else run;
        ReplaceCharConcat(piece, SubKeywords(rest, [VarEscape]), VarEscape, Var);
        if IsKeyword(run) {
          ReplaceCharCons(VarEscape, [], VarEscape, Var);
          assert [VarEscape] + [] == [VarEscape];
        } else {
          assert forall y | y in run :: IsWordChar(y);
          CharAbsent(run, VarEscape);
          ReplaceAbsent(run, [VarEscape], Var);
        }
      } else {
        ReplaceCharCons(z[0], SubKeywords(z[1..], [VarEscape]), VarEscape, Var);
        assert forall y | y in z[1..] :: y in z;
        KeywordRep(z[1..]);
      }
    }
  }

  const VarEscapeName: string := "varEscapeEscape"

  lemma VarTokenParts()
    ensures VarEscapeEscape == ['<'] + VarEscapeName + ['>']
    ensures AllWord(VarEscapeName) && !IsKeyword(VarEscapeName)
  {
  }

  /** The written-out `&` passes through the keyword substitution unchanged. */
  lemma TokenKeywords(z: string, rep: string)
    ensures SubKeywords(VarEscapeEscape + z, rep) == VarEscapeEscape + SubKeywords(z, rep)
  {
    VarTokenParts();
    var closed := ['>'] + z;
    var named := VarEscapeName + closed;
    var done := SubKeywords(z, rep);
    calc {
      SubKeywords(VarEscapeEscape + z, rep);
      { assert VarEscapeEscape + z == ['<'] + named; }
      SubKeywords(['<'] + named, rep);
      { NonWordCons('<', named, rep); }
      ['<'] + SubKeywords(named, rep);
      { RunSplit(VarEscapeName, closed, rep); }
      ['<'] + (VarEscapeName + SubKeywords(closed, rep));
      { NonWordCons('>', z, rep); }
      ['<'] + (VarEscapeName + (['>'] + done));
      { assert ['<'] + (VarEscapeName + (['>'] + done)) == (['<'] + VarEscapeName + ['>']) + done; }
      VarEscapeEscape + done;
    }
  }

  /** Writing out `&` leaves a run of word characters alone. */
  lemma WordNotExpanded(a: string, t: string)
    requires AllWord(a)
    ensures ReplaceAll(a, [VarEscape], t) == a
  {
    assert forall y | y in a :: IsWordChar(y);
    CharAbsent(a, VarEscape);
    ReplaceAbsent(a, [VarEscape], t);
  }

  /** Writing out `&` keeps a text starting with a non-word character so. */
  lemma ExpandStartsNonWord(u: string)
    requires |u| == 0 || !IsWordChar(u[0])
    ensures var x := ReplaceAll(u, [VarEscape], VarEscapeEscape); |x| == 0 || !IsWordChar(x[0])
  {
    if |u| > 0 {
      ReplaceCharCons(u[0], u[1..], VarEscape, VarEscapeEscape);
      assert u == [u[0]] + u[1..];
      assert VarEscapeEscape[0] == '<';
    }
  }

  /** The run step of `KeywordsCommuteExpand`. */
  lemma KeywordsCommuteRun(run: string, rest: string)
    requires |run| > 0 && AllWord(run)
    requires |rest| == 0 || !IsWordChar(rest[0])
    requires SubKeywords(ReplaceAll(rest, [VarEscape], VarEscapeEscape), Var)
          == ReplaceAll(SubKeywords(rest, Var), [VarEscape], VarEscapeEscape)
    ensures SubKeywords(ReplaceAll(run + rest, [VarEscape], VarEscapeEscape), Var)
         == ReplaceAll(SubKeywords(run + rest, Var), [VarEscape], VarEscapeEscape)
  {
    var xr := ReplaceAll(rest, [VarEscape], VarEscapeEscape);
    var kept := SubKeywords(rest, Var);
    var piece := if IsKeyword(run) then Var else run;
    assert AllWord(piece);
    calc {
      SubKeywords(ReplaceAll(run + rest, [VarEscape], VarEscapeEscape), Var);
      { ReplaceCharConcat(run, rest, VarEscape, VarEscapeEscape);
        WordNotExpanded(run, VarEscapeEscape); }
      SubKeywords(run + xr, Var);
      { ExpandStartsNonWord(rest); RunSplit(run, xr, Var); }
      piece + SubKeywords(xr, Var);
      piece + ReplaceAll(kept, [VarEscape], VarEscapeEscape);
      { WordNotExpanded(piece, VarEscapeEscape); }
      ReplaceAll(piece, [VarEscape], VarEscapeEscape) + ReplaceAll(kept, [VarEscape], VarEscapeEscape);
      { ReplaceCharConcat(piece, kept, VarEscape, VarEscapeEscape); }
      ReplaceAll(piece + kept, [VarEscape], VarEscapeEscape);
      { RunSplit(run, rest, Var); }
      ReplaceAll(SubKeywords(run + rest, Var), [VarEscape], VarEscapeEscape);
    }
  }

  /** The step of `KeywordsCommuteExpand` at a non-word character. */
  lemma KeywordsCommuteNonWord(c: char, y: string)
    requires !IsWordChar(c)
    requires SubKeywords(ReplaceAll(y, [VarEscape], VarEscapeEscape), Var)
          == ReplaceAll(SubKeywords(y, Var), [VarEscape], VarEscapeEscape)
    ensures SubKeywords(ReplaceAll([c] + y, [VarEscape], VarEscapeEscape), Var)
         == ReplaceAll(SubKeywords([c] + y, Var), [VarEscape], VarEscapeEscape)
  {
    var xy := ReplaceAll(y, [VarEscape], VarEscapeEscape);
    ReplaceCharCons(c, y, VarEscape, VarEscapeEscape);
    if c == VarEscape {
      TokenKeywords(xy, Var);
    } else {
      NonWordCons(c, xy, Var);
    }
    NonWordCons(c, y, Var);
    ReplaceCharCons(c, SubKeywords(y, Var), VarEscape, VarEscapeEscape);
  }

  /** Writing out `&` commutes with substituting `var` for the keywords: the token is
      bounded by non-word characters, as `&` is, and holds no whole keyword. */
  lemma {:induction false} KeywordsCommuteExpand(x: string)
    ensures SubKeywords(ReplaceAll(x, [VarEscape], VarEscapeEscape), Var)
         == ReplaceAll(SubKeywords(x, Var), [VarEscape], VarEscapeEscape)
    decreases |x|
  {
    if |x| == 0 {
    } else if IsWordChar(x[0]) {
      var e := SpanEnd(x, 0, IsWordChar);
      assert x == x[..e] + x[e..];
      KeywordsCommuteExpand(x[e..]);
      KeywordsCommuteRun(x[..e], x[e..]);
    } else {
      assert x == [x[0]] + x[1..];
      KeywordsCommuteExpand(x[1..]);
      KeywordsCommuteNonWord(x[0], x[1..]);
    }
  }

  /** The keyword substitution works part by part when no word runs over the seam. */
  lemma {:induction false} SubKeywordsConcat(a: string, b: string, rep: string)
    requires |a| == 0 || |b| == 0 || !IsWordChar(a[|a| - 1]) || !IsWordChar(b[0])
    ensures SubKeywords(a + b, rep) == SubKeywords(a, rep) + SubKeywords(b, rep)
    decreases |a|
  {
    if |a| == 0 {
      assert a + b == b;
    } else if IsWordChar(a[0]) {
      var e := SpanEnd(a, 0, IsWordChar);
      if e == |a| {
        ConcatWholeRun(a, b, rep);
      } else {
        SubKeywordsConcat(a[e..], b, rep);
        ConcatRunStep(a, b, rep, e);
      }
    } else {
      SubKeywordsConcat(a[1..], b, rep);
      ConcatNonWordStep(a, b, rep);
    }
  }

  lemma ConcatWholeRun(a: string, b: string, rep: string)
    requires |a| > 0 && AllWord(a)
    requires |b| == 0 || !IsWordChar(b[0])
    ensures SubKeywords(a + b, rep) == SubKeywords(a, rep) + SubKeywords(b, rep)
  {
    RunSplit(a, b, rep);
    assert a == a + [];
    RunSplit(a, [], rep);
  }

  lemma ConcatRunStep(a: string, b: string, rep: string, e: nat)
    requires |a| > 0 && IsWordChar(a[0]) && e == SpanEnd(a, 0, IsWordChar) && e < |a|
    requires SubKeywords(a[e..] + b, rep) == SubKeywords(a[e..], rep) + SubKeywords(b, rep)
    ensures SubKeywords(a + b, rep) == SubKeywords(a, rep) + SubKeywords(b, rep)
  {
    var run, rest := a[..e], a[e..];
    assert a == run + rest;
    assert AllWord(run) && !IsWordChar(rest[0]);
    Assoc(run, rest, b);
    RunSplit(run, rest + b, rep);
    RunSplit(run, rest, rep);
    var piece := if IsKeyword(run) then rep else run;
    Assoc(piece, SubKeywords(rest, rep), SubKeywords(b, rep));
  }

  lemma ConcatNonWordStep(a: string, b: string, rep: string)
    requires |a| > 0 && !IsWordChar(a[0])
    requires SubKeywords(a[1..] + b, rep) == SubKeywords(a[1..], rep) + SubKeywords(b, rep)
    ensures SubKeywords(a + b, rep) == SubKeywords(a, rep) + SubKeywords(b, rep)
  {
    var rest := a[1..];
    assert a == [a[0]] + rest;
    Assoc([a[0]], rest, b);
    NonWordCons(a[0], rest + b, rep);
    NonWordCons(a[0], rest, rep);
    Assoc([a[0]], SubKeywords(rest, rep), SubKeywords(b, rep));
  }

  /** A text of non-word characters is its own keyword substitution. */
  lemma {:induction false} NonWordsFixed(u: string, rep: string)
    requires forall k | 0 <= k < |u| :: !IsWordChar(u[k])
    ensures SubKeywords(u, rep) == u
    decreases |u|
  {
    if |u| > 0 {
      NonWordsFixed(u[1..], rep);
    }
  }

  /** Writing out `&` keeps a text ending with a non-word character so. */
  lemma ExpandEndsNonWord(u: string)
    requires |u| == 0 || !IsWordChar(u[|u| - 1])
    ensures var x := ReplaceAll(u, [VarEscape], VarEscapeEscape); |x| == 0 || !IsWordChar(x[|x| - 1])
  {
    if |u| > 0 {
      var c := u[|u| - 1];
      assert u == u[..|u| - 1] + [c];
      ReplaceCharConcat(u[..|u| - 1], [c], VarEscape, VarEscapeEscape);
      ReplaceCharCons(c, [], VarEscape, VarEscapeEscape);
      assert [c] + [] == [c];
      assert VarEscapeEscape[|VarEscapeEscape| - 1] == '>';
    }
  }

  lemma FirstNonWord(u: string, rep: string)
    requires |u| > 0 && !IsWordChar(u[0])
    ensures |SubKeywords(u, rep)| > 0 && SubKeywords(u, rep)[0] == u[0]
  {
  }

  /** A window of 16 characters, a word that is no keyword and then a non-word character. */
  predicate WordThenStop(w: string) {
    |w| == 16 && (forall k | 0 <= k < 15 :: IsWordChar(w[k])) && !IsWordChar(w[15])
    && !IsKeyword(w[..15])
  }

  /** The written-out `&` after its `<` is such a window. */
  lemma WindowChars()
    ensures WordThenStop(VarEscapeEscape[1..])
  {
    VarTokenParts();
    var w := VarEscapeEscape[1..];
    assert w == VarEscapeName + ">";
    assert w[..15] == VarEscapeName;
  }

  /** A text that differs from `w` at some position below `|w|` does not start with `w`. */
  lemma DiffersAt(o: string, w: string, k: nat)
    requires k < |w| && (|w| <= |o| ==> o[k] != w[k])
    ensures !OccursAt(o, w, 0)
  {
    if |w| <= |o| {
      assert o[..|w|][k] != w[k];
    }
  }

  /** A word of exactly 15 characters before a non-word character. */
  lemma WindowAbsentRun15(run: string, rest: string, w: string, o: string)
    requires |run| == 15 && |rest| > 0 && WordThenStop(w) && !OccursAt(run + rest, w, 0)
    requires |o| >= 16 && o[..15] == run && o[15] == rest[0]
    ensures !OccursAt(o, w, 0)
  {
    if run != w[..15] {
      assert o[..16][..15] == run;
    } else {
      assert (run + rest)[..16] == w[..15] + [rest[0]];
      assert w == w[..15] + [w[15]];
      DiffersAt(o, w, 15);
    }
  }

  /** `WindowAbsent` where the text starts with a word. */
  lemma WindowAbsentRun(run: string, rest: string, w: string)
    requires |run| > 0 && AllWord(run) && (|rest| == 0 || !IsWordChar(rest[0]))
    requires WordThenStop(w) && !OccursAt(run + rest, w, 0)
    ensures !OccursAt((if IsKeyword(run) then Var else run) + SubKeywords(rest, Var), w, 0)
  {
    var piece := if IsKeyword(run) then Var else run;
    var o := piece + SubKeywords(rest, Var);
    if |o| >= |w| {
      if |piece| < 16 {
        FirstNonWord(rest, Var);
        assert o[|piece|] == rest[0];
      }
      if IsKeyword(run) {
        DiffersAt(o, w, 3);
      } else if |run| < 15 {
        DiffersAt(o, w, |run|);
      } else if |run| > 15 {
        assert o[15] == run[15];
        DiffersAt(o, w, 15);
      } else {
        assert o[..15] == run;
        WindowAbsentRun15(run, rest, w, o);
      }
    }
  }

  /** After `<`, substituting `var` for the keywords cannot complete the written-out
      `&`: a substituted `var` is followed by a non-word character, the token's `var`
      by `E`. */
  lemma WindowAbsent(t: string)
    requires !OccursAt(t, VarEscapeEscape[1..], 0)
    ensures !OccursAt(SubKeywords(t, Var), VarEscapeEscape[1..], 0)
  {
    var w := VarEscapeEscape[1..];
    var o := SubKeywords(t, Var);
    if |t| > 0 && |o| >= |w| {
      if !IsWordChar(t[0]) {
        FirstNonWord(t, Var);
        assert o[..|w|][0] != w[0];
      } else {
        var e := SpanEnd(t, 0, IsWordChar);
        var run, rest := t[..e], t[e..];
        assert t == run + rest;
        RunSplit(run, rest, Var);
        WindowChars();
        WindowAbsentRun(run, rest, w);
      }
    }
  }

  /** Substituting `var` for the keywords cannot produce the written-out `&`. */
  lemma {:induction false} KeywordsKeepAbsent(s: string)
    requires !Occurs(s, VarEscapeEscape)
    ensures !Occurs(SubKeywords(s, Var), VarEscapeEscape)
    decreases |s|
  {
    var vt := VarEscapeEscape;
    if |s| > 0 {
      var o := SubKeywords(s, Var);
      if IsWordChar(s[0]) {
        var e := SpanEnd(s, 0, IsWordChar);
        var piece := if IsKeyword(s[..e]) then Var else s[..e];
        AbsentSuffix(s, vt, e);
        KeywordsKeepAbsent(s[e..]);
        assert o == piece + SubKeywords(s[e..], Var);
        forall i: nat | i < |piece| ensures !OccursAt(o, vt, i) {
          if i + |vt| <= |o| {
            assert o[i..i + |vt|][0] == piece[i];
          }
        }
        AbsentConcat(piece, SubKeywords(s[e..], Var), vt);
      } else {
        AbsentSuffix(s, vt, 1);
        KeywordsKeepAbsent(s[1..]);
        var rest := SubKeywords(s[1..], Var);
        assert o == [s[0]] + rest;
        forall i: nat | i < 1 ensures !OccursAt(o, vt, i) {
          if s[0] != vt[0] {
            if |vt| <= |o| {
              assert o[..|vt|][0] != vt[0];
            }
          } else {
            assert !OccursAt(s[1..], vt[1..], 0) by {
              assert vt == [vt[0]] + vt[1..];
              if |vt| <= |s| {
                assert s[..|vt|] == [s[0]] + s[1..][..|vt| - 1];
              }
              assert !OccursAt(s, vt, 0);
            }
            WindowAbsent(s[1..]);
            if |vt| <= |o| {
              assert o[..|vt|] == [s[0]] + rest[..|vt| - 1];
            }
          }
        }
        AbsentConcat([s[0]], rest, vt);
      }
    }
  }

  /** Unescaping the keyword escape restores the text with every whole-word keyword
      spelled `var`, for a text with no wildcard type and no written-out `&`. */
  lemma LocalRoundTrip(x: string)
    requires !Occurs(x, WildCard) && !Occurs(x, VarEscapeEscape)
    ensures UnescapeLocal(EscapeLocal(x)) == SubKeywords(x, Var)
  {
    VarTokenNoBorder();
    ReplaceAbsent(x, WildCard, "");
    var e1 := ReplaceAll(x, [VarEscape], VarEscapeEscape);
    ReplaceRemovesChar(x, VarEscape, VarEscapeEscape);
    KeywordRep(e1);
    KeywordsCommuteExpand(x);
    KeywordsKeepAbsent(x);
    ExpandRoundTrip(SubKeywords(x, Var), VarEscape, VarEscapeEscape);
  }

  /** A leading word other than `const` is its own substitution. */
  lemma WordFixed(s: string, e: nat)
    requires |s| > 0 && IsWordChar(s[0]) && e == SpanEnd(s, 0, IsWordChar)
    requires !OccursAt(s, Const, 0) && SubKeywords(s[e..], Var) == s[e..]
    ensures SubKeywords(s, Var) == s
  {
    assert s == s[..e] + s[e..];
  }

  /** A leading non-word character is its own substitution. */
  lemma NonWordFixed(s: string)
    requires |s| > 0 && !IsWordChar(s[0]) && SubKeywords(s[1..], Var) == s[1..]
    ensures SubKeywords(s, Var) == s
  {
    assert s == [s[0]] + s[1..];
  }

  /** A text without `const` comes through the keyword substitution unchanged. */
  lemma {:induction false} KeywordsFixedWithoutConst(s: string)
    requires !Occurs(s, Const)
    ensures SubKeywords(s, Var) == s
    decreases |s|
  {
    if |s| > 0 {
      if IsWordChar(s[0]) {
        var e := SpanEnd(s, 0, IsWordChar);
        AbsentSuffix(s, Const, e);
        KeywordsFixedWithoutConst(s[e..]);
        assert !OccursAt(s, Const, 0);
        WordFixed(s, e);
      } else {
        AbsentSuffix(s, Const, 1);
        KeywordsFixedWithoutConst(s[1..]);
        NonWordFixed(s);
      }
    }
  }

  /** A text without `const`, wildcard types or written-out `&` survives the local
      escape and unescape unchanged. */
  lemma LocalRoundTripWithoutConst(x: string)
    requires !Occurs(x, WildCard) && !Occurs(x, VarEscapeEscape) && !Occurs(x, Const)
    ensures UnescapeLocal(EscapeLocal(x)) == x
  {
    LocalRoundTrip(x);
    KeywordsFixedWithoutConst(x);
  }

  /** `&&` survives the keyword escape (as2js.py:179-182, 340-344). */
  lemma AndPreserved()
    ensures UnescapeLocal(EscapeLocal("return 0 && 1")) == "return 0 && 1"
  {
    var s := "return 0 && 1";
    AbsentByChar(s, WildCard, ':');
    AbsentByChar(s, VarEscapeEscape, '<');
    AbsentByChar(s, Const, 'c');
    LocalRoundTripWithoutConst(s);
  }
}
