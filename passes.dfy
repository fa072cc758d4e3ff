/** The token passes run over each function body: `localVariables`, `trace`,
    `superClass`, `catch`, `asType`, `isInstanceOf` and `intType`, and `convertVector`
    run over the whole text. Each pattern is a matcher tried at one position; `re.sub` is `Sub` over it. */
module Passes {
  import opened Text
  import opened Matching
  import opened Escaping
  import opened Declarations

  predicate IsDigit(c: char) {
    '0' <= c <= '9'
  }

  predicate IsClose(c: char) {
    c == '>'
  }

  predicate NotClose(c: char) {
    c != '>'
  }

  predicate NotOpen(c: char) {
    c != '('
  }

  /** The first character of a text found at `w`. */
  lemma FirstAt(s: string, t: string, w: nat)
    requires |t| > 0 && OccursAt(s, t, w)
    ensures w < |s| && s[w] == t[0]
  {
    assert s[w..w + |t|][0] == s[w];
  }

  // ---------------------------------------------------------------------------
  // `(\s+)trace\s*(\()` and `(\s+)super\s*(\()`, replaced by `\1` + name + `\2`

  /** The first group of a call match; the second is always `(`. */
  datatype Call = Call(lead: string)

  /** Where `(\s+)word\s*(\()` matches at `i`: whitespace up to `w`, the word at `w`,
      whitespace after it, and the `(` at `p`. */
  predicate CallSite(word: string, s: string, i: nat, w: nat, p: nat) {
    && i < w && w + |word| <= p < |s|
    && Run(s, i, w, IsSpace) && OccursAt(s, word, w)
    && Run(s, w + |word|, p, IsSpace) && s[p] == '('
  }

  /** `(\s+)word\s*(\()` tried at `i`. The whitespace before the word is the longest
      run, since the word does not start with whitespace. */
  function CallMatch(word: string, s: string, i: nat): (r: Option<Span<Call>>)
    requires |word| > 0 && !IsSpace(word[0])
    ensures r.Some? ==>
      var w := i + |r.value.groups.lead|;
      && 0 < r.value.end && w <= |s| && r.value.groups.lead == s[i..w]
      && CallSite(word, s, i, w, r.value.end - 1)
    ensures !Occurs(s, word) ==> r.None?
  {
    if i < |s| && IsSpace(s[i]) then
      var w := SpanEnd(s, i, IsSpace);
      if OccursAt(s, word, w) then
        var p := SpanEnd(s, w + |word|, IsSpace);
        if p < |s| && s[p] == '(' then Some(Span(p + 1, Call(s[i..w]))) else None
      else None
    else None
  }

  /** Where the pattern's description holds, the matcher matches, with the group and
      the end that the description gives. */
  lemma CallMatchAtSite(word: string, s: string, i: nat, w: nat, p: nat)
    requires |word| > 0 && !IsSpace(word[0])
    requires CallSite(word, s, i, w, p)
    ensures CallMatch(word, s, i) == Some(Span(p + 1, Call(s[i..w])))
  {
    FirstAt(s, word, w);
    SpanEndUnique(s, i, IsSpace, w);
    SpanEndUnique(s, w + |word|, IsSpace, p);
  }

  function CallAt(word: string): Matcher<Call>
    requires |word| > 0 && !IsSpace(word[0])
  {
    (s: string, i: nat) => CallMatch(word, s, i)
  }

  function TraceAt(): Matcher<Call> {
    CallAt("trace")
  }

  function SuperAt(): Matcher<Call> {
    CallAt("super")
  }

  /** `\1` + name + `\2`. */
  function CallTo(name: string): Call -> string {
    (c: Call) => c.lead + name + "("
  }

  /** `trace` (as2js.py:490-499), with `log` for `cfg.log`. */
  function Trace(funcContent: string, log: string): string {
    Sub(TraceAt(), funcContent, CallTo(log))
  }

  /** `superClass` (as2js.py:479-488), with `superClass` for `cfg.superClass`. */
  function SuperClass(funcContent: string, superClass: string): string {
    Sub(SuperAt(), funcContent, CallTo(superClass))
  }

  /** The text from `j` up to the first call of `word` after it is copied; the
      whitespace before the word is kept, and `name(` takes the place of the word,
      the whitespace after it and the `(`. */
  lemma CallRewrites(word: string, name: string, s: string, j: nat, i: nat, w: nat, p: nat)
    requires |word| > 0 && !IsSpace(word[0])
    requires j <= i && CallSite(word, s, i, w, p)
    requires forall k, v, q | j <= k < i :: !CallSite(word, s, k, v, q)
    ensures SubFrom(CallAt(word), s, j, CallTo(name))
         == s[j..w] + name + "(" + SubFrom(CallAt(word), s, p + 1, CallTo(name))
  {
    forall k | j <= k < i ensures MatchAt(CallAt(word), s, k).None? {
      NoCallAt(word, s, k);
    }
    CallMatchAtSite(word, s, i, w, p);
    SubFirstMatch(CallAt(word), s, j, i, CallTo(name));
    var rest := SubFrom(CallAt(word), s, p + 1, CallTo(name));
    assert CallTo(name)(Call(s[i..w])) == s[i..w] + name + "(";
    assert s[j..w] == s[j..i] + s[i..w];
    Assoc(s[j..i], s[i..w] + name, "(");
    Assoc(s[j..i], s[i..w], name);
    Assoc(s[j..i], s[i..w] + name + "(", rest);
  }

  /** Without a call site at `k`, the matcher does not match there. */
  lemma NoCallAt(word: string, s: string, k: nat)
    requires |word| > 0 && !IsSpace(word[0])
    requires forall v, q :: !CallSite(word, s, k, v, q)
    ensures MatchAt(CallAt(word), s, k).None?
  {
  }

  /** `trace(` after whitespace becomes `log(`, the whitespace kept (the doctest at
      as2js.py:493-496); before the first such call the body is copied. */
  lemma TraceRewrites(funcContent: string, log: string, j: nat, i: nat, w: nat, p: nat)
    requires j <= i && CallSite("trace", funcContent, i, w, p)
    requires forall k, v, q | j <= k < i :: !CallSite("trace", funcContent, k, v, q)
    ensures SubFrom(TraceAt(), funcContent, j, CallTo(log))
         == funcContent[j..w] + log + "(" + SubFrom(TraceAt(), funcContent, p + 1, CallTo(log))
  {
    CallRewrites("trace", log, funcContent, j, i, w, p);
  }

  /** `super(` after whitespace becomes `superClass(`, the whitespace kept (the doctest
      at as2js.py:482-485). */
  lemma SuperClassRewrites(funcContent: string, superClass: string, j: nat, i: nat, w: nat, p: nat)
    requires j <= i && CallSite("super", funcContent, i, w, p)
    requires forall k, v, q | j <= k < i :: !CallSite("super", funcContent, k, v, q)
    ensures SubFrom(SuperAt(), funcContent, j, CallTo(superClass))
         == funcContent[j..w] + superClass + "(" + SubFrom(SuperAt(), funcContent, p + 1, CallTo(superClass))
  {
    CallRewrites("super", superClass, funcContent, j, i, w, p);
  }

  /** A call rewritten to a name that does not begin with the word, which has no `(`
      in it, does not read as it did: where the word stood, the name and its `(` now
      stand. */
  lemma CallToDeparts(word: string, name: string, s: string, k: nat)
    requires |word| > 0 && !IsSpace(word[0]) && '(' !in word && !OccursAt(name, word, 0)
    requires k < |s| && CallMatch(word, s, k).Some?
    ensures !IsPrefix(CallTo(name)(CallMatch(word, s, k).value.groups), s[k..])
  {
    var sp := CallMatch(word, s, k).value;
    var w := k + |sp.groups.lead|;
    var r := CallTo(name)(sp.groups);
    assert OccursAt(s, word, w) && w - k == |sp.groups.lead|;
    assert r == sp.groups.lead + (name + "(");
    if |r| <= |s| - k {
      var t := s[k..][..|r|];
      if |name| >= |word| {
        var d :| 0 <= d < |word| && name[d] != word[d];
        assert t[w - k + d] == s[w + d] == word[d];
        assert r[w - k + d] == name[d];
      } else {
        assert t[w - k + |name|] == s[w + |name|] == word[|name|];
        assert r[w - k + |name|] == '(';
      }
      assert t != r;
    }
  }

  /** Whenever the call is not rewritten to a name starting with the word, the pass
      changes a body exactly when it has a call of the word after whitespace; without
      the word in it, a body is left as it is. */
  lemma CallUnchanged(word: string, name: string, funcContent: string)
    requires |word| > 0 && !IsSpace(word[0]) && '(' !in word
    ensures !Occurs(funcContent, word) ==> Sub(CallAt(word), funcContent, CallTo(name)) == funcContent
    ensures !OccursAt(name, word, 0) ==>
      (Sub(CallAt(word), funcContent, CallTo(name)) == funcContent <==>
        forall k | 0 <= k < |funcContent| :: CallMatch(word, funcContent, k).None?)
  {
    if !Occurs(funcContent, word) {
      SubNoMatch(CallAt(word), funcContent, 0, CallTo(name));
    }
    forall k | 0 <= k < |funcContent| ensures MatchAt(CallAt(word), funcContent, k) == CallMatch(word, funcContent, k) {
    }
    if !OccursAt(name, word, 0) {
      forall k | 0 <= k < |funcContent| && MatchAt(CallAt(word), funcContent, k).Some?
        ensures !IsPrefix(CallTo(name)(MatchAt(CallAt(word), funcContent, k).value.groups), funcContent[k..])
      {
        CallToDeparts(word, name, funcContent, k);
      }
      SubDeparts(CallAt(word), funcContent, CallTo(name));
    }
  }

  /** Without `trace` in it, a body is left as it is; and unless `log` itself begins
      with `trace`, the pass changes a body exactly when a `trace(` call follows
      whitespace somewhere in it. */
  lemma TraceUnchanged(funcContent: string, log: string)
    ensures !Occurs(funcContent, "trace") ==> Trace(funcContent, log) == funcContent
    ensures !OccursAt(log, "trace", 0) ==>
      (Trace(funcContent, log) == funcContent <==>
        forall k | 0 <= k < |funcContent| :: CallMatch("trace", funcContent, k).None?)
  {
    CallUnchanged("trace", log, funcContent);
  }

  /** The same for `super` and the name of the super class. */
  lemma SuperClassUnchanged(funcContent: string, superClass: string)
    ensures !Occurs(funcContent, "super") ==> SuperClass(funcContent, superClass) == funcContent
    ensures !OccursAt(superClass, "super", 0) ==>
      (SuperClass(funcContent, superClass) == funcContent <==>
        forall k | 0 <= k < |funcContent| :: CallMatch("super", funcContent, k).None?)
  {
    CallUnchanged("super", superClass, funcContent);
  }

  // ---------------------------------------------------------------------------
  // `(\bcatch\s*\()(\w+):[^\(]+\)` replaced by `\1\2)`

  datatype Catch = Catch(open: string, name: string)

  /** The last `)` in `s[lo..hi]`, or -1. */
  function LastClose(s: string, lo: nat, hi: nat): (k: int)
    requires lo <= hi <= |s|
    ensures k == -1 || (lo <= k < hi && s[k] == ')')
    ensures k == -1 ==> forall m | lo <= m < hi :: s[m] != ')'
    ensures k >= 0 ==> forall m | k < m < hi :: s[m] != ')'
    decreases hi - lo
  {
    if hi == lo then -1 else if s[hi - 1] == ')' then hi - 1 else LastClose(s, lo, hi - 1)
  }

  /** The conditions `LastClose` meets determine it. */
  lemma {:induction false} LastCloseUnique(s: string, lo: nat, hi: nat, p: nat)
    requires lo <= p < hi <= |s| && s[p] == ')'
    requires forall m | p < m < hi :: s[m] != ')'
    ensures LastClose(s, lo, hi) == p
    decreases hi - lo
  {
    if s[hi - 1] != ')' {
      LastCloseUnique(s, lo, hi - 1, p);
    }
  }

  /** Where the first `(` at or after `k` stands, or the end of `s`. */
  function NextOpen(s: string, k: nat): (q: nat)
    requires k <= |s|
    ensures k <= q <= |s| && (q == |s| || s[q] == '(')
    ensures forall m | k <= m < q :: s[m] != '('
  {
    SpanEnd(s, k, NotOpen)
  }

  /** `(\bcatch\s*\()(\w+):` at `i`: `catch` at a word boundary, whitespace, the `(`
      at `a`, and a name up to the `:` at `n`. */
  predicate CatchHead(s: string, i: nat, a: nat, n: nat) {
    && i + 5 <= a && a + 1 < n < |s|
    && Boundary(s, i) && OccursAt(s, "catch", i) && Run(s, i + 5, a, IsSpace) && s[a] == '('
    && Run(s, a + 1, n, IsWordChar) && s[n] == ':'
  }

  /** `[^\(]+\)` after the `:` at `n` ends at the `)` at `p`: at least one character
      stands between them and, as `[^\(]+` is greedy, it is the last `)` before the
      next `(`. */
  predicate TypeClose(s: string, n: nat, p: nat) {
    && n + 2 <= p < |s| && s[p] == ')'
    && p < NextOpen(s, n + 1) && forall m | p < m < NextOpen(s, n + 1) :: s[m] != ')'
  }

  /** Where `(\bcatch\s*\()(\w+):[^\(]+\)` matches at `i`. */
  predicate CatchSite(s: string, i: nat, a: nat, n: nat, p: nat) {
    CatchHead(s, i, a, n) && TypeClose(s, n, p)
  }

  /** The `)` that ends the type after the `:` at `n`, or -1. */
  function CloseAfterType(s: string, n: nat): (p: int)
    requires n < |s|
    ensures p >= 0 ==> TypeClose(s, n, p)
  {
    var q := NextOpen(s, n + 1);
    if q < n + 2 then -1 else LastClose(s, n + 2, q)
  }

  lemma CloseAfterTypeUnique(s: string, n: nat, p: nat)
    requires n < |s| && TypeClose(s, n, p)
    ensures CloseAfterType(s, n) == p
  {
    LastCloseUnique(s, n + 2, NextOpen(s, n + 1), p);
  }

  /** The name's end when `catch`, whitespace, `(` and a name start at `i`, or `i`. */
  function CatchNameEnd(s: string, i: nat): (n: nat)
    ensures n != i ==> i + 5 <= |s| && CatchHead(s, i, SpanEnd(s, i + 5, IsSpace), n)
  {
    if Boundary(s, i) && OccursAt(s, "catch", i) then
      var a := SpanEnd(s, i + 5, IsSpace);
      if a < |s| && s[a] == '(' then
        var n := SpanEnd(s, a + 1, IsWordChar);
        if a + 1 < n < |s| && s[n] == ':' then n else i
      else i
    else i
  }

  lemma CatchNameEndUnique(s: string, i: nat, a: nat, n: nat)
    requires CatchHead(s, i, a, n)
    ensures SpanEnd(s, i + 5, IsSpace) == a && CatchNameEnd(s, i) == n
  {
    SpanEndUnique(s, i + 5, IsSpace, a);
    SpanEndUnique(s, a + 1, IsWordChar, n);
  }

  /** `catchP` tried at `i`. */
  function CatchMatch(s: string, i: nat): Option<Span<Catch>> {
    var n := CatchNameEnd(s, i);
    if n == i then None
    else
      var a := SpanEnd(s, i + 5, IsSpace);
      var p := CloseAfterType(s, n);
      if p >= 0 then Some(Span(p + 1, Catch(s[i..a + 1], s[a + 1..n]))) else None
  }

  /** A match is a catch site: the first group runs from `catch` to the `(`, the
      second is the name, and the match ends after the `)` that closes the type. */
  lemma CatchMatchSound(s: string, i: nat)
    requires CatchMatch(s, i).Some?
    ensures var r := CatchMatch(s, i).value;
      var a := i + |r.groups.open| - 1;
      var n := a + 1 + |r.groups.name|;
      && 0 < |r.groups.open| && n < r.end <= |s|
      && r.groups.open == s[i..a + 1] && r.groups.name == s[a + 1..n]
      && CatchSite(s, i, a, n, r.end - 1)
  {
    var n := CatchNameEnd(s, i);
    var a := SpanEnd(s, i + 5, IsSpace);
    var p := CloseAfterType(s, n);
    assert CatchMatch(s, i) == Some(Span(p + 1, Catch(s[i..a + 1], s[a + 1..n])));
  }

  /** Where the pattern's description holds, the matcher matches, with the groups and
      the end that the description gives. */
  lemma CatchMatchAtSite(s: string, i: nat, a: nat, n: nat, p: nat)
    requires CatchSite(s, i, a, n, p)
    ensures CatchMatch(s, i) == Some(Span(p + 1, Catch(s[i..a + 1], s[a + 1..n])))
  {
    CatchNameEndUnique(s, i, a, n);
    CloseAfterTypeUnique(s, n, p);
  }

  function CatchAt(): Matcher<Catch> {
    (s: string, i: nat) => CatchMatch(s, i)
  }

  /** `\1\2)`: the type annotation is dropped. */
  function Untyped(c: Catch): string {
    c.open + c.name + ")"
  }

  /** `catch` (as2js.py:501-509). */
  function CatchPass(funcContent: string): string {
    Sub(CatchAt(), funcContent, Untyped)
  }

  /** The replacement of a catch site is the text up to the end of the name, and `)`. */
  lemma CatchSiteReplaced(s: string, i: nat, a: nat, n: nat, p: nat)
    requires CatchSite(s, i, a, n, p)
    ensures i < a < n < p < |s|
    ensures MatchAt(CatchAt(), s, i) == Some(Span(p + 1, Catch(s[i..a + 1], s[a + 1..n])))
    ensures Untyped(Catch(s[i..a + 1], s[a + 1..n])) == s[i..n] + ")"
  {
    CatchMatchAtSite(s, i, a, n, p);
    assert s[i..n] == s[i..a + 1] + s[a + 1..n];
  }

  /** The text from `j` up to the first typed `catch` after it is copied, and so are
      `catch`, the `(` and the name; the `:` and the type are dropped up to the `)`
      (the doctest at as2js.py:503-506). */
  lemma CatchRewrites(funcContent: string, j: nat, i: nat, a: nat, n: nat, p: nat)
    requires j <= i && CatchSite(funcContent, i, a, n, p)
    requires forall k, b, e, q | j <= k < i :: !CatchSite(funcContent, k, b, e, q)
    ensures SubFrom(CatchAt(), funcContent, j, Untyped)
         == funcContent[j..n] + ")" + SubFrom(CatchAt(), funcContent, p + 1, Untyped)
  {
    NoCatchBefore(funcContent, j, i);
    CatchStep(funcContent, j, i, a, n, p);
  }

  lemma CatchStep(s: string, j: nat, i: nat, a: nat, n: nat, p: nat)
    requires j <= i && CatchSite(s, i, a, n, p)
    requires forall k | j <= k < i :: MatchAt(CatchAt(), s, k).None?
    ensures SubFrom(CatchAt(), s, j, Untyped) == s[j..n] + ")" + SubFrom(CatchAt(), s, p + 1, Untyped)
  {
    CatchSiteReplaced(s, i, a, n, p);
    SubKeepsUpTo(CatchAt(), s, j, i, n, p + 1, Catch(s[i..a + 1], s[a + 1..n]), Untyped, ")");
  }

  /** `re.sub` from `j`, where the first match is at `i`, ends at `e` and has groups `g`. */
  lemma SubReplacesFirst<T>(m: Matcher<T>, s: string, j: nat, i: nat, e: nat, g: T, repl: T -> string)
    requires j <= i < |s|
    requires forall k | j <= k < i :: MatchAt(m, s, k).None?
    requires MatchAt(m, s, i) == Some(Span(e, g))
    ensures SubFrom(m, s, j, repl) == s[j..i] + repl(g) + SubFrom(m, s, e, repl)
  {
    SubFirstMatch(m, s, j, i, repl);
  }

  /** `re.sub` from `j`, where the first match is at `i` and its replacement keeps the
      matched text up to `n` and appends `t`. */
  lemma SubKeepsUpTo<T>(m: Matcher<T>, s: string, j: nat, i: nat, n: nat, e: nat, g: T, repl: T -> string, t: string)
    requires j <= i <= n <= |s| && i < |s|
    requires forall k | j <= k < i :: MatchAt(m, s, k).None?
    requires MatchAt(m, s, i) == Some(Span(e, g)) && repl(g) == s[i..n] + t
    ensures SubFrom(m, s, j, repl) == s[j..n] + t + SubFrom(m, s, e, repl)
  {
    SubFirstMatch(m, s, j, i, repl);
    var rest := SubFrom(m, s, e, repl);
    assert s[j..n] == s[j..i] + s[i..n];
    Assoc(s[j..i], s[i..n], t);
    Assoc(s[j..i], s[i..n] + t, rest);
  }

  /** Without a catch site at `k`, the matcher does not match there. */
  lemma NoCatchAt(s: string, k: nat)
    requires forall a, n, p :: !CatchSite(s, k, a, n, p)
    ensures MatchAt(CatchAt(), s, k).None?
  {
    if CatchMatch(s, k).Some? {
      CatchMatchSound(s, k);
    }
  }

  lemma NoCatchBefore(s: string, j: nat, i: nat)
    requires forall k, b, e, q | j <= k < i :: !CatchSite(s, k, b, e, q)
    ensures forall k | j <= k < i :: MatchAt(CatchAt(), s, k).None?
  {
    forall k | j <= k < i ensures MatchAt(CatchAt(), s, k).None? {
      NoCatchAt(s, k);
    }
  }

  /** The pass changes a body exactly when the pattern matches in it somewhere. */
  lemma CatchUnchanged(funcContent: string)
    ensures CatchPass(funcContent) == funcContent
        <==> forall k | 0 <= k < |funcContent| :: CatchMatch(funcContent, k).None?
  {
    forall k | 0 <= k < |funcContent| && MatchAt(CatchAt(), funcContent, k).Some?
      ensures |Untyped(MatchAt(CatchAt(), funcContent, k).value.groups)| < MatchAt(CatchAt(), funcContent, k).value.end - k
    {
      CatchMatchSound(funcContent, k);
    }
    SubShrinks(CatchAt(), funcContent, Untyped);
    forall k | 0 <= k < |funcContent| ensures MatchAt(CatchAt(), funcContent, k) == CatchMatch(funcContent, k) {
    }
  }

  // ---------------------------------------------------------------------------
  // `\s+as\s+\w+\b` removed and `\s+is\s+(\w+)\b` replaced by ` instanceof \1`

  /** The whitespace before the keyword and the type name after it. */
  datatype TypeTest = TypeTest(lead: string, name: string)

  /** Where `\s+word\s+(\w+)\b` matches at `i`: whitespace up to the word at `a`,
      whitespace up to `b`, and a name from `b` that ends at `c`, a word boundary. */
  predicate TypeTestSite(word: string, s: string, i: nat, a: nat, b: nat, c: nat) {
    && i < a && a + |word| < b < c <= |s|
    && Run(s, i, a, IsSpace) && OccursAt(s, word, a) && Run(s, a + |word|, b, IsSpace)
    && Run(s, b, c, IsWordChar) && (c == |s| || !IsWordChar(s[c]))
  }

  /** `\s+word\s+(\w+)\b` tried at `i`. Each repetition takes the longest run, since
      what follows it cannot belong to it. */
  function TypeTestMatch(word: string, s: string, i: nat): (r: Option<Span<TypeTest>>)
    requires |word| > 0 && !IsSpace(word[0])
    ensures r.Some? ==>
      var g := r.value.groups;
      var a := i + |g.lead|;
      && |g.name| <= r.value.end && a <= |s| && r.value.end <= |s|
      && g.lead == s[i..a] && g.name == s[r.value.end - |g.name|..r.value.end]
      && TypeTestSite(word, s, i, a, r.value.end - |g.name|, r.value.end)
    ensures !Occurs(s, word) ==> r.None?
  {
    if i < |s| && IsSpace(s[i]) then
      var a := SpanEnd(s, i, IsSpace);
      if OccursAt(s, word, a) then
        var b := SpanEnd(s, a + |word|, IsSpace);
        var c := SpanEnd(s, b, IsWordChar);
        if b > a + |word| && c > b then Some(Span(c, TypeTest(s[i..a], s[b..c]))) else None
      else None
    else None
  }

  /** Where the pattern's description holds, the matcher matches, with the groups and
      the end that the description gives. */
  lemma TypeTestMatchAtSite(word: string, s: string, i: nat, a: nat, b: nat, c: nat)
    requires |word| > 0 && !IsSpace(word[0])
    requires TypeTestSite(word, s, i, a, b, c)
    ensures TypeTestMatch(word, s, i) == Some(Span(c, TypeTest(s[i..a], s[b..c])))
  {
    FirstAt(s, word, a);
    SpanEndUnique(s, i, IsSpace, a);
    SpanEndUnique(s, a + |word|, IsSpace, b);
    SpanEndUnique(s, b, IsWordChar, c);
  }

  function TypeTestAt(word: string): Matcher<TypeTest>
    requires |word| > 0 && !IsSpace(word[0])
  {
    (s: string, i: nat) => TypeTestMatch(word, s, i)
  }

  function AsAt(): Matcher<TypeTest> {
    TypeTestAt("as")
  }

  function IsAt(): Matcher<TypeTest> {
    TypeTestAt("is")
  }

  function Dropped(t: TypeTest): string {
    ""
  }

  function InstanceOf(t: TypeTest): string {
    " instanceof " + t.name
  }

  /** `asType` (as2js.py:511-525): ` as Type` goes with the whitespace before it. */
  function AsType(funcContent: string): string {
    Sub(AsAt(), funcContent, Dropped)
  }

  /** `isInstanceOf` (as2js.py:527-541). */
  function IsInstanceOf(funcContent: string): string {
    Sub(IsAt(), funcContent, InstanceOf)
  }

  /** The text from `j` up to the first type test with `word` is copied, and the test,
      from the whitespace before the word to the end of the name, is replaced. */
  lemma TypeTestRewrites(word: string, repl: TypeTest -> string, s: string, j: nat, i: nat, a: nat, b: nat, c: nat)
    requires |word| > 0 && !IsSpace(word[0])
    requires j <= i && TypeTestSite(word, s, i, a, b, c)
    requires forall k, a', b', c' | j <= k < i :: !TypeTestSite(word, s, k, a', b', c')
    ensures SubFrom(TypeTestAt(word), s, j, repl)
         == s[j..i] + repl(TypeTest(s[i..a], s[b..c])) + SubFrom(TypeTestAt(word), s, c, repl)
  {
    forall k | j <= k < i ensures MatchAt(TypeTestAt(word), s, k).None? {
    }
    TypeTestMatchAtSite(word, s, i, a, b, c);
    SubFirstMatch(TypeTestAt(word), s, j, i, repl);
  }

  /** ` as Name` is removed with the whitespace before it (the doctests at
      as2js.py:513-518); before the first such cast the body is copied. */
  lemma AsTypeRewrites(funcContent: string, j: nat, i: nat, a: nat, b: nat, c: nat)
    requires j <= i && TypeTestSite("as", funcContent, i, a, b, c)
    requires forall k, a', b', c' | j <= k < i :: !TypeTestSite("as", funcContent, k, a', b', c')
    ensures SubFrom(AsAt(), funcContent, j, Dropped)
         == funcContent[j..i] + SubFrom(AsAt(), funcContent, c, Dropped)
  {
    TypeTestRewrites("as", Dropped, funcContent, j, i, a, b, c);
  }

  /** ` is Name` becomes ` instanceof Name`, the whitespace around `is` collapsed to
      one space (the doctests at as2js.py:529-534). */
  lemma IsInstanceOfRewrites(funcContent: string, j: nat, i: nat, a: nat, b: nat, c: nat)
    requires j <= i && TypeTestSite("is", funcContent, i, a, b, c)
    requires forall k, a', b', c' | j <= k < i :: !TypeTestSite("is", funcContent, k, a', b', c')
    ensures SubFrom(IsAt(), funcContent, j, InstanceOf)
         == funcContent[j..i] + " instanceof " + funcContent[b..c] + SubFrom(IsAt(), funcContent, c, InstanceOf)
  {
    TypeTestRewrites("is", InstanceOf, funcContent, j, i, a, b, c);
  }

  /** The pass changes a body exactly when the pattern matches in it somewhere. */
  lemma AsTypeUnchanged(funcContent: string)
    ensures AsType(funcContent) == funcContent
        <==> forall k | 0 <= k < |funcContent| :: TypeTestMatch("as", funcContent, k).None?
  {
    SubShrinks(AsAt(), funcContent, Dropped);
    forall k | 0 <= k < |funcContent| ensures MatchAt(AsAt(), funcContent, k) == TypeTestMatch("as", funcContent, k) {
    }
  }

  /** ` instanceof Name` never repeats the type test it replaces: either `is` follows
      a single whitespace character where `in` now stands, or a second whitespace
      character stands where `i` now does. */
  lemma InstanceOfDeparts(s: string, k: nat)
    requires k < |s| && TypeTestMatch("is", s, k).Some?
    ensures !IsPrefix(InstanceOf(TypeTestMatch("is", s, k).value.groups), s[k..])
  {
    var sp := TypeTestMatch("is", s, k).value;
    var a := k + |sp.groups.lead|;
    var r := InstanceOf(sp.groups);
    assert k < a && Run(s, k, a, IsSpace) && OccursAt(s, "is", a);
    assert r[1] == 'i' && r[2] == 'n';
    if |r| <= |s| - k {
      var t := s[k..][..|r|];
      if a == k + 1 {
        assert s[a..a + 2] == "is";
        assert t[2] == s[k + 2] == 's';
      } else {
        assert IsSpace(s[k + 1]);
        assert t[1] == s[k + 1];
      }
      assert t != r;
    }
  }

  /** The pass changes a body exactly when the pattern matches in it somewhere;
      without `is` in it, a body is left as it is. */
  lemma IsInstanceOfUnchanged(funcContent: string)
    ensures !Occurs(funcContent, "is") ==> IsInstanceOf(funcContent) == funcContent
    ensures IsInstanceOf(funcContent) == funcContent
        <==> forall k | 0 <= k < |funcContent| :: TypeTestMatch("is", funcContent, k).None?
  {
    forall k | 0 <= k < |funcContent| ensures MatchAt(IsAt(), funcContent, k) == TypeTestMatch("is", funcContent, k) {
    }
    forall k | 0 <= k < |funcContent| && MatchAt(IsAt(), funcContent, k).Some?
      ensures !IsPrefix(InstanceOf(MatchAt(IsAt(), funcContent, k).value.groups), funcContent[k..])
    {
      InstanceOfDeparts(funcContent, k);
    }
    SubDeparts(IsAt(), funcContent, InstanceOf);
  }

  // ---------------------------------------------------------------------------
  // `([^\.\w])\bint\(` replaced by `\1Math.floor(`

  /** `intTypeP` tried at `i`: the group is the character before `int(`. The `\b`
      holds by itself, as that character is no word character and `i` is one. */
  function IntMatch(s: string, i: nat): (r: Option<Span<char>>)
    ensures r.Some? <==> i < |s| && s[i] != '.' && !IsWordChar(s[i]) && OccursAt(s, "int(", i + 1)
    ensures r.Some? ==> r.value == Span(i + 5, s[i])
  {
    if i < |s| && s[i] != '.' && !IsWordChar(s[i]) && OccursAt(s, "int(", i + 1) then
      Some(Span(i + 5, s[i]))
    else None
  }

  function IntAt(): Matcher<char> {
    (s: string, i: nat) => IntMatch(s, i)
  }

  /** `\1Math.floor(`. */
  function Floor(c: char): string {
    [c] + "Math.floor("
  }

  /** `intType` (as2js.py:543-556). */
  function IntType(funcContent: string): string {
    Sub(IntAt(), funcContent, Floor)
  }

  /** From `j`, the first `int(` after a character that is neither `.` nor a word
      character gets `Math.floor(` in its place, with that character kept, and the text
      before it is copied. */
  lemma IntTypeRewrites(funcContent: string, j: nat, i: nat)
    requires j <= i < |funcContent|
    requires funcContent[i] != '.' && !IsWordChar(funcContent[i]) && OccursAt(funcContent, "int(", i + 1)
    requires forall k | j <= k < i :: !(funcContent[k] != '.' && !IsWordChar(funcContent[k]) && OccursAt(funcContent, "int(", k + 1))
    ensures SubFrom(IntAt(), funcContent, j, Floor)
         == funcContent[j..i + 1] + "Math.floor(" + SubFrom(IntAt(), funcContent, i + 5, Floor)
  {
    forall k | j <= k < i ensures MatchAt(IntAt(), funcContent, k).None? {
      assert IntMatch(funcContent, k).None?;
    }
    assert MatchAt(IntAt(), funcContent, i) == Some(Span(i + 5, funcContent[i]));
    SubReplacesFirst(IntAt(), funcContent, j, i, i + 5, funcContent[i], Floor);
    FloorAfter(funcContent, j, i);
  }

  lemma FloorAfter(s: string, j: nat, i: nat)
    requires j <= i < |s|
    ensures s[j..i] + Floor(s[i]) == s[j..i + 1] + "Math.floor("
  {
    var before, c := s[j..i], [s[i]];
    assert s[j..i + 1] == before + c;
    Assoc(before, c, "Math.floor(");
  }

  /** The pass leaves a body as it is exactly when each `int(` in it is at the start,
      or after a `.` or a word character. */
  lemma IntTypeUnchanged(funcContent: string)
    ensures IntType(funcContent) == funcContent
        <==> forall k | 0 <= k < |funcContent| && OccursAt(funcContent, "int(", k + 1) ::
               funcContent[k] == '.' || IsWordChar(funcContent[k])
  {
    SubGrows(IntAt(), funcContent, Floor);
    if forall k | 0 <= k < |funcContent| :: MatchAt(IntAt(), funcContent, k).None? {
      forall k | 0 <= k < |funcContent| && OccursAt(funcContent, "int(", k + 1)
        ensures funcContent[k] == '.' || IsWordChar(funcContent[k])
      {
        assert MatchAt(IntAt(), funcContent, k).None?;
      }
    }
  }

  // ---------------------------------------------------------------------------
  // `convertVector`: `new\s+Vector\.<[^>]*>+\(\d*\)`, `Vector\.<[^>]*>+`, `new\s+<[^>]*>+`

  /** `[^>]*>+` from `j`, with the `>` run from `b` to `c`. Neither repetition gives
      anything back: what follows `[^>]*` is `>`, and what follows `>+` in each
      pattern is not, so both runs are the longest. */
  predicate AnglesSite(s: string, j: nat, b: nat, c: nat) {
    j <= b < c <= |s| && Run(s, j, b, NotClose) && Run(s, b, c, IsClose) && (c == |s| || s[c] != '>')
  }

  /** `[^>]*>+` from `j`: where it ends, or `j` when it does not match. */
  function AnglesEnd(s: string, j: nat): (e: nat)
    requires j <= |s|
    ensures j <= e <= |s|
    ensures e > j ==> AnglesSite(s, j, SpanEnd(s, j, NotClose), e)
  {
    var b := SpanEnd(s, j, NotClose);
    var c := SpanEnd(s, b, IsClose);
    if c > b then c else j
  }

  lemma AnglesEndUnique(s: string, j: nat, b: nat, c: nat)
    requires AnglesSite(s, j, b, c)
    ensures SpanEnd(s, j, NotClose) == b && AnglesEnd(s, j) == c
  {
    SpanEndUnique(s, j, NotClose, b);
    SpanEndUnique(s, b, IsClose, c);
  }

  /** `new\s+` from `i`, with the whitespace ending at `a`. */
  predicate NewAt(s: string, i: nat, a: nat) {
    OccursAt(s, "new", i) && i + 3 < a <= |s| && Run(s, i + 3, a, IsSpace)
  }

  /** Where `new\s+Vector\.<[^>]*>+\(\d*\)` matches at `i`: `new`, whitespace up to
      `Vector.<` at `a`, the angles ending at `c`, `(` at `c`, digits and the `)` at `d`. */
  predicate ConstructorSite(s: string, i: nat, a: nat, b: nat, c: nat, d: nat) {
    && NewAt(s, i, a) && VectorTypeSite(s, a, b, c)
    && c < d < |s| && s[c] == '(' && Run(s, c + 1, d, IsDigit) && s[d] == ')'
  }

  /** Where `Vector\.<[^>]*>+` matches at `i`, ending at `c`. */
  predicate VectorTypeSite(s: string, i: nat, b: nat, c: nat) {
    OccursAt(s, "Vector.<", i) && AnglesSite(s, i + 8, b, c)
  }

  /** Where `new\s+<[^>]*>+` matches at `i`: `new`, whitespace up to the `<` at `a`,
      and the angles ending at `c`. */
  predicate LiteralSite(s: string, i: nat, a: nat, b: nat, c: nat) {
    NewAt(s, i, a) && a < |s| && s[a] == '<' && AnglesSite(s, a + 1, b, c)
  }

  /** The end of `new\s+` from `i`, or `i` when it does not match there. */
  function NewEnd(s: string, i: nat): (a: nat)
    ensures a != i ==> NewAt(s, i, a) && (a == |s| || !IsSpace(s[a]))
  {
    if OccursAt(s, "new", i) then
      var a := SpanEnd(s, i + 3, IsSpace);
      if a > i + 3 then a else i
    else i
  }

  /** `new` followed by whitespace ending at `a`, where a non-space stands. */
  lemma NewEndUnique(s: string, i: nat, a: nat)
    requires NewAt(s, i, a) && (a == |s| || !IsSpace(s[a]))
    ensures NewEnd(s, i) == a
  {
    SpanEndUnique(s, i + 3, IsSpace, a);
  }

  /** `vectorConstructorP` tried at `i`: `new\s+`, then `vectorTypeP`, then `\(\d*\)`. */
  function ConstructorMatch(s: string, i: nat): (r: Option<Span<()>>)
    ensures r.Some? ==> OccursAt(s, "new", i) && i + 15 <= r.value.end <= |s| && s[r.value.end - 1] == ')'
  {
    var a := NewEnd(s, i);
    if a == i then None
    else match VectorTypeMatch(s, a)
      case None => None
      case Some(t) =>
        var c := t.end;
        if c < |s| && s[c] == '(' then
          var d := SpanEnd(s, c + 1, IsDigit);
          if d < |s| && s[d] == ')' then Some(Span(d + 1, ())) else None
        else None
  }

  /** `vectorTypeP` tried at `i`. */
  function VectorTypeMatch(s: string, i: nat): (r: Option<Span<()>>)
    ensures r.Some? ==> OccursAt(s, "Vector.<", i) && i + 9 <= r.value.end <= |s| && s[r.value.end - 1] == '>'
  {
    if OccursAt(s, "Vector.<", i) then
      var c := AnglesEnd(s, i + 8);
      if c > i + 8 then Some(Span(c, ())) else None
    else None
  }

  /** `vectorLiteralP` tried at `i`. */
  function LiteralMatch(s: string, i: nat): (r: Option<Span<()>>)
    ensures r.Some? ==> OccursAt(s, "new", i) && i + 6 <= r.value.end <= |s| && s[r.value.end - 1] == '>'
  {
    var a := NewEnd(s, i);
    if a != i && a < |s| && s[a] == '<' then
      var c := AnglesEnd(s, a + 1);
      if c > a + 1 then Some(Span(c, ())) else None
    else None
  }

  /** A constructor match is a constructor site ending where the match ends. */
  lemma ConstructorMatchSound(s: string, i: nat)
    requires ConstructorMatch(s, i).Some?
    ensures exists a: nat, b: nat, c: nat, d: nat :: ConstructorSite(s, i, a, b, c, d) && ConstructorMatch(s, i).value.end == d + 1
  {
    var a := NewEnd(s, i);
    var c := VectorTypeMatch(s, a).value.end;
    VectorTypeMatchSound(s, a);
    var b :| VectorTypeSite(s, a, b, c);
    var d := SpanEnd(s, c + 1, IsDigit);
    assert ConstructorSite(s, i, a, b, c, d);
  }

  /** A vector-type match is a vector-type site ending where the match ends. */
  lemma VectorTypeMatchSound(s: string, i: nat)
    requires VectorTypeMatch(s, i).Some?
    ensures exists b: nat, c: nat :: VectorTypeSite(s, i, b, c) && VectorTypeMatch(s, i).value.end == c
  {
    var b := SpanEnd(s, i + 8, NotClose);
    assert VectorTypeSite(s, i, b, VectorTypeMatch(s, i).value.end);
  }

  /** A vector-literal match is a vector-literal site ending where the match ends. */
  lemma LiteralMatchSound(s: string, i: nat)
    requires LiteralMatch(s, i).Some?
    ensures exists a: nat, b: nat, c: nat :: LiteralSite(s, i, a, b, c) && LiteralMatch(s, i).value.end == c
  {
    var a := NewEnd(s, i);
    var b := SpanEnd(s, a + 1, NotClose);
    assert LiteralSite(s, i, a, b, LiteralMatch(s, i).value.end);
  }

  /** Where the constructor pattern's description holds, the matcher matches there,
      up to the `)`. */
  lemma ConstructorMatchAtSite(s: string, i: nat, a: nat, b: nat, c: nat, d: nat)
    requires ConstructorSite(s, i, a, b, c, d)
    ensures ConstructorMatch(s, i) == Some(Span(d + 1, ()))
  {
    FirstAt(s, "Vector.<", a);
    NewEndUnique(s, i, a);
    VectorTypeMatchAtSite(s, a, b, c);
    SpanEndUnique(s, c + 1, IsDigit, d);
  }

  /** Where the vector-type pattern's description holds, the matcher matches there,
      up to the end of the `>` run. */
  lemma VectorTypeMatchAtSite(s: string, i: nat, b: nat, c: nat)
    requires VectorTypeSite(s, i, b, c)
    ensures VectorTypeMatch(s, i) == Some(Span(c, ()))
  {
    AnglesEndUnique(s, i + 8, b, c);
  }

  /** Where the vector-literal pattern's description holds, the matcher matches there,
      up to the end of the `>` run. */
  lemma LiteralMatchAtSite(s: string, i: nat, a: nat, b: nat, c: nat)
    requires LiteralSite(s, i, a, b, c)
    ensures LiteralMatch(s, i) == Some(Span(c, ()))
  {
    NewEndUnique(s, i, a);
    AnglesEndUnique(s, a + 1, b, c);
  }

  function ConstructorAt(): Matcher<()> {
    (s: string, i: nat) => ConstructorMatch(s, i)
  }

  function VectorTypeAt(): Matcher<()> {
    (s: string, i: nat) => VectorTypeMatch(s, i)
  }

  function LiteralAt(): Matcher<()> {
    (s: string, i: nat) => LiteralMatch(s, i)
  }

  function ArrayConstructor(u: ()): string {
    "new Array()"
  }

  function ArrayType(u: ()): string {
    "Array"
  }

  function NoType(u: ()): string {
    ""
  }

  /** `convertVector` (as2js.py:854-866): vector constructors become `new Array()`,
      then vector types `Array`, then the type of a vector literal is dropped. */
  function ConvertVector(text: string): string {
    var constructed := Sub(ConstructorAt(), text, ArrayConstructor);
    var typed := Sub(VectorTypeAt(), constructed, ArrayType);
    Sub(LiteralAt(), typed, NoType)
  }

  lemma NoConstructorBefore(s: string, j: nat, i: nat)
    requires forall k, a, b, c, d | j <= k < i :: !ConstructorSite(s, k, a, b, c, d)
    ensures forall k | j <= k < i :: MatchAt(ConstructorAt(), s, k).None?
  {
    forall k | j <= k < i ensures MatchAt(ConstructorAt(), s, k).None? {
      if ConstructorMatch(s, k).Some? {
        ConstructorMatchSound(s, k);
      }
    }
  }

  lemma NoVectorTypeBefore(s: string, j: nat, i: nat)
    requires forall k, b, c | j <= k < i :: !VectorTypeSite(s, k, b, c)
    ensures forall k | j <= k < i :: MatchAt(VectorTypeAt(), s, k).None?
  {
    forall k | j <= k < i ensures MatchAt(VectorTypeAt(), s, k).None? {
      if VectorTypeMatch(s, k).Some? {
        VectorTypeMatchSound(s, k);
      }
    }
  }

  lemma NoLiteralBefore(s: string, j: nat, i: nat)
    requires forall k, a, b, c | j <= k < i :: !LiteralSite(s, k, a, b, c)
    ensures forall k | j <= k < i :: MatchAt(LiteralAt(), s, k).None?
  {
    forall k | j <= k < i ensures MatchAt(LiteralAt(), s, k).None? {
      if LiteralMatch(s, k).Some? {
        LiteralMatchSound(s, k);
      }
    }
  }

  /** The text from `j` up to the first vector constructor is copied, and the
      constructor, from `new` to the `)`, becomes `new Array()` (the doctests at
      as2js.py:858-861). */
  lemma ConstructorRewrites(text: string, j: nat, i: nat, a: nat, b: nat, c: nat, d: nat)
    requires j <= i && ConstructorSite(text, i, a, b, c, d)
    requires forall k, a', b', c', d' | j <= k < i :: !ConstructorSite(text, k, a', b', c', d')
    ensures SubFrom(ConstructorAt(), text, j, ArrayConstructor)
         == text[j..i] + "new Array()" + SubFrom(ConstructorAt(), text, d + 1, ArrayConstructor)
  {
    NoConstructorBefore(text, j, i);
    ConstructorStep(text, j, i, a, b, c, d);
  }

  lemma ConstructorStep(s: string, j: nat, i: nat, a: nat, b: nat, c: nat, d: nat)
    requires j <= i && ConstructorSite(s, i, a, b, c, d)
    requires forall k | j <= k < i :: MatchAt(ConstructorAt(), s, k).None?
    ensures SubFrom(ConstructorAt(), s, j, ArrayConstructor)
         == s[j..i] + "new Array()" + SubFrom(ConstructorAt(), s, d + 1, ArrayConstructor)
  {
    ConstructorMatchAtSite(s, i, a, b, c, d);
    assert i < d + 1 <= |s|;
    SubReplacesFirst(ConstructorAt(), s, j, i, d + 1, (), ArrayConstructor);
  }

  /** The text from `j` up to the first vector type is copied, and the type, from
      `Vector.<` to the last `>` of its run, becomes `Array` (the doctests at as2js.py:856-861). */
  lemma VectorTypeRewrites(text: string, j: nat, i: nat, b: nat, c: nat)
    requires j <= i && VectorTypeSite(text, i, b, c)
    requires forall k, b', c' | j <= k < i :: !VectorTypeSite(text, k, b', c')
    ensures SubFrom(VectorTypeAt(), text, j, ArrayType)
         == text[j..i] + "Array" + SubFrom(VectorTypeAt(), text, c, ArrayType)
  {
    NoVectorTypeBefore(text, j, i);
    VectorTypeMatchAtSite(text, i, b, c);
    FirstAt(text, "Vector.<", i);
    SubFirstMatch(VectorTypeAt(), text, j, i, ArrayType);
  }

  /** The text from `j` up to the first vector literal is copied, and `new <Type>` in
      front of the literal is removed (the doctest at as2js.py:856-857). */
  lemma LiteralRewrites(text: string, j: nat, i: nat, a: nat, b: nat, c: nat)
    requires j <= i && LiteralSite(text, i, a, b, c)
    requires forall k, a', b', c' | j <= k < i :: !LiteralSite(text, k, a', b', c')
    ensures SubFrom(LiteralAt(), text, j, NoType) == text[j..i] + SubFrom(LiteralAt(), text, c, NoType)
  {
    NoLiteralBefore(text, j, i);
    LiteralMatchAtSite(text, i, a, b, c);
    FirstAt(text, "new", i);
    SubFirstMatch(LiteralAt(), text, j, i, NoType);
  }

  /** Each replacement of the conversion is shorter than what it replaces. */
  lemma VectorShrinks(text: string)
    ensures Shrinking(ConstructorAt(), text, ArrayConstructor)
    ensures Shrinking(VectorTypeAt(), text, ArrayType)
    ensures Shrinking(LiteralAt(), text, NoType)
    ensures forall k | 0 <= k < |text| :: MatchAt(ConstructorAt(), text, k) == ConstructorMatch(text, k)
    ensures forall k | 0 <= k < |text| :: MatchAt(VectorTypeAt(), text, k) == VectorTypeMatch(text, k)
    ensures forall k | 0 <= k < |text| :: MatchAt(LiteralAt(), text, k) == LiteralMatch(text, k)
  {
  }

  /** As each replacement is shorter than its match, the conversion leaves a text as
      it is exactly when none of the three patterns matches in it. */
  lemma ConvertVectorUnchanged(text: string)
    ensures ConvertVector(text) == text
        <==> ((forall k | 0 <= k < |text| :: ConstructorMatch(text, k).None?)
           && (forall k | 0 <= k < |text| :: VectorTypeMatch(text, k).None?)
           && (forall k | 0 <= k < |text| :: LiteralMatch(text, k).None?))
  {
    var constructed := Sub(ConstructorAt(), text, ArrayConstructor);
    var typed := Sub(VectorTypeAt(), constructed, ArrayType);
    VectorShrinks(text);
    VectorShrinks(constructed);
    VectorShrinks(typed);
    SubShrinks(ConstructorAt(), text, ArrayConstructor);
    SubShrinks(VectorTypeAt(), constructed, ArrayType);
    SubShrinks(LiteralAt(), typed, NoType);
  }

  // ---------------------------------------------------------------------------
  // `localVariables`: the type of each local declaration dropped

  /** The four groups of a match, in the order `re.split` lists them. */
  function RecordParts(r: Record): seq<string> {
    [r.comment, r.name, r.detail, r.body]
  }

  /** The third group of each declaration found. */
  function DataTypes(variables: seq<Record>): (dataTypes: seq<string>)
    ensures |dataTypes| == |variables|
    ensures forall k | 0 <= k < |variables| :: dataTypes[k] == variables[k].detail
  {
    seq(|variables|, k requires 0 <= k < |variables| => variables[k].detail)
  }

  /** A part as the loop keeps it: only when it is no data type and not empty. */
  function KeptPart(part: string, dataTypes: seq<string>): string {
    if part !in dataTypes && part != "" then part else ""
  }

  /** The parts the loop keeps, joined. */
  function Kept(parts: seq<string>, dataTypes: seq<string>): string {
    if |parts| == 0 then "" else KeptPart(parts[0], dataTypes) + Kept(parts[1..], dataTypes)
  }

  /** `localVariables` (as2js.py:191-225), as a value: the escaped body is split at each
      escaped declaration, every part that equals one of the declared types is left
      out, and the escapes are undone. */
  function WithoutLocalTypes(funcContent: string): string {
    var escaped := EscapeLocal(funcContent);
    var dataTypes := DataTypes(FindAll(LocalVariableAt, escaped));
    UnescapeLocal(Kept(Split(LocalVariableAt, escaped, RecordParts), dataTypes))
  }

  lemma {:induction false} KeptConcat(a: seq<string>, b: seq<string>, dataTypes: seq<string>)
    ensures Kept(a + b, dataTypes) == Kept(a, dataTypes) + Kept(b, dataTypes)
  {
    if |a| > 0 {
      assert (a + b)[1..] == a[1..] + b;
      KeptConcat(a[1..], b, dataTypes);
      Assoc(KeptPart(a[0], dataTypes), Kept(a[1..], dataTypes), Kept(b, dataTypes));
    } else {
      assert a + b == b;
    }
  }

  lemma KeptSnoc(parts: seq<string>, k: nat, dataTypes: seq<string>)
    requires k < |parts|
    ensures Kept(parts[..k + 1], dataTypes) == Kept(parts[..k], dataTypes) + KeptPart(parts[k], dataTypes)
  {
    assert parts[..k + 1] == parts[..k] + [parts[k]];
    KeptConcat(parts[..k], [parts[k]], dataTypes);
    assert Kept([parts[k]], dataTypes) == KeptPart(parts[k], dataTypes) + Kept([], dataTypes);
  }

  /** The loop over the parts (as2js.py:218-222). */
  method KeepParts(parts: seq<string>, dataTypes: seq<string>) returns (content: string)
    ensures content == Kept(parts, dataTypes)
  {
    content := "";
    for k := 0 to |parts|
      invariant content == Kept(parts[..k], dataTypes)
    {
      KeptSnoc(parts, k, dataTypes);
      if parts[k] !in dataTypes {
        if parts[k] != "" {
          content := content + parts[k];
        }
      }
    }
    assert parts[..|parts|] == parts;
  }

  /** `localVariables` (as2js.py:191-225). */
  method LocalVariables(funcContent: string) returns (content: string)
    ensures content == WithoutLocalTypes(funcContent)
  {
    var escaped := EscapeLocal(funcContent);
    var variables := FindAll(LocalVariableAt, escaped);
    var dataTypes := DataTypes(variables);
    var parts := Split(LocalVariableAt, escaped, RecordParts);
    content := KeepParts(parts, dataTypes);
    content := UnescapeLocal(content);
  }

  /** A declaration with its type dropped: the escape, the name and the definition. */
  function WithoutType(r: Record): string {
    r.comment + r.name + r.body
  }

  /** The part survives the filter as it is. */
  predicate Survives(part: string, dataTypes: seq<string>) {
    part == "" || part !in dataTypes
  }

  /** A declaration whose type is dropped and whose escape, name and definition
      survive. */
  predicate PartsSurvive(r: Record, dataTypes: seq<string>) {
    && Survives(r.comment, dataTypes) && Survives(r.name, dataTypes) && Survives(r.body, dataTypes)
    && (r.detail == "" || r.detail in dataTypes)
  }

  /** A match whose type is dropped and whose other parts, and the text before it,
      survive. */
  predicate LosesOnlyType(h: Hit<Record>, dataTypes: seq<string>) {
    Survives(h.gap, dataTypes) && PartsSurvive(h.groups, dataTypes)
  }

  lemma SurvivesKept(part: string, dataTypes: seq<string>)
    ensures Survives(part, dataTypes) ==> Kept([part], dataTypes) == part
    ensures part == "" || part in dataTypes ==> Kept([part], dataTypes) == ""
  {
    assert Kept([part], dataTypes) == KeptPart(part, dataTypes) + Kept([], dataTypes);
  }

  lemma KeptCons(x: string, rest: seq<string>, dataTypes: seq<string>)
    ensures Kept([x] + rest, dataTypes) == KeptPart(x, dataTypes) + Kept(rest, dataTypes)
  {
    assert ([x] + rest)[1..] == rest;
  }

  /** The parts of one match followed by `rest` keep what `WithoutType` keeps. */
  lemma KeptHit(h: Hit<Record>, rest: seq<string>, dataTypes: seq<string>)
    requires LosesOnlyType(h, dataTypes)
    ensures Kept([h.gap] + RecordParts(h.groups) + rest, dataTypes)
         == h.gap + WithoutType(h.groups) + Kept(rest, dataTypes)
  {
    var r := h.groups;
    var t4 := [r.body] + rest;
    var t3 := [r.detail] + t4;
    var t2 := [r.name] + t3;
    var t1 := [r.comment] + t2;
    assert [h.gap] + RecordParts(r) + rest == [h.gap] + t1;
    var k := Kept(rest, dataTypes);
    assert KeptPart(r.detail, dataTypes) == "";
    KeptCons(r.body, rest, dataTypes);
    assert Kept(t4, dataTypes) == r.body + k;
    KeptCons(r.detail, t4, dataTypes);
    assert Kept(t3, dataTypes) == r.body + k;
    KeptCons(r.name, t3, dataTypes);
    assert Kept(t2, dataTypes) == r.name + (r.body + k);
    KeptCons(r.comment, t2, dataTypes);
    assert Kept(t1, dataTypes) == r.comment + (r.name + (r.body + k));
    KeptCons(h.gap, t1, dataTypes);
    Assoc(r.name, r.body, k);
    Assoc(r.comment, r.name + r.body, k);
    Assoc(r.comment, r.name, r.body);
    Assoc(h.gap, WithoutType(r), k);
  }

  lemma {:induction false} KeptHits(hs: seq<Hit<Record>>, dataTypes: seq<string>)
    requires forall k | 0 <= k < |hs| :: LosesOnlyType(hs[k], dataTypes)
    ensures Kept(SplitHits(hs, RecordParts), dataTypes) == Render(hs, WithoutType)
  {
    if |hs| > 0 {
      var rest := SplitHits(hs[1..], RecordParts);
      KeptHits(hs[1..], dataTypes);
      KeptHit(hs[0], rest, dataTypes);
    }
  }

  /** Each data type found is empty or starts with `:`. */
  lemma DataTypesTyped(found: seq<Record>)
    requires forall k | 0 <= k < |found| :: DeclShape(found[k])
    ensures forall t | t in DataTypes(found) :: t == "" || t[0] == ':'
  {
  }

  lemma HitPartsSurvive(v: Record, t: string, dataTypes: seq<string>)
    requires DeclShape(v) && t == v.detail && t in dataTypes
    requires forall u | u in dataTypes :: u == "" || u[0] == ':'
    ensures PartsSurvive(v, dataTypes)
  {
  }

  /** The escape, a name and a definition never start with `:`, so they survive the
      filter, and each declaration's own type is among the data types; so a
      declaration loses only its type whenever the text before it survives. */
  lemma DeclarationsLoseOnlyType(escaped: string)
    ensures var hs := ScanFrom(LocalVariableAt, escaped, 0).hits;
      var dataTypes := DataTypes(FindAll(LocalVariableAt, escaped));
      forall k | 0 <= k < |hs| :: PartsSurvive(hs[k].groups, dataTypes)
    ensures var hs := ScanFrom(LocalVariableAt, escaped, 0).hits;
      var dataTypes := DataTypes(FindAll(LocalVariableAt, escaped));
      forall k | 0 <= k < |hs| && Survives(hs[k].gap, dataTypes) :: LosesOnlyType(hs[k], dataTypes)
  {
    var hs := ScanFrom(LocalVariableAt, escaped, 0).hits;
    var found := FindAll(LocalVariableAt, escaped);
    var dataTypes := DataTypes(found);
    LocalVariablesShaped(escaped);
    DataTypesTyped(found);
    forall k | 0 <= k < |hs| ensures PartsSurvive(hs[k].groups, dataTypes) {
      assert hs[k].groups == found[k];
      assert dataTypes[k] == found[k].detail;
      HitPartsSurvive(found[k], dataTypes[k], dataTypes);
    }
  }

  /** Unless the text between two declarations (or after the last) equals one of the
      declared types, `localVariables` drops the type of each declaration and the
      whitespace after its name, and nothing else. */
  lemma LocalTypesDropped(funcContent: string)
    requires var escaped := EscapeLocal(funcContent);
      var r := ScanFrom(LocalVariableAt, escaped, 0);
      var dataTypes := DataTypes(FindAll(LocalVariableAt, escaped));
      (forall k | 0 <= k < |r.hits| :: Survives(r.hits[k].gap, dataTypes)) && Survives(r.tail, dataTypes)
    ensures WithoutLocalTypes(funcContent) == UnescapeLocal(Sub(LocalVariableAt, EscapeLocal(funcContent), WithoutType))
  {
    var escaped := EscapeLocal(funcContent);
    var r := ScanFrom(LocalVariableAt, escaped, 0);
    var dataTypes := DataTypes(FindAll(LocalVariableAt, escaped));
    DeclarationsLoseOnlyType(escaped);
    KeptHits(r.hits, dataTypes);
    KeptConcat(SplitHits(r.hits, RecordParts), [r.tail], dataTypes);
    SurvivesKept(r.tail, dataTypes);
    SubFromRenders(LocalVariableAt, escaped, 0, WithoutType);
  }

  /** A body without escaped declarations comes back with each whole-word `const`
      spelled `var`, provided it holds no wildcard type and no written-out `&`. */
  lemma LocalVariablesWithoutDeclarations(funcContent: string)
    requires !Occurs(funcContent, WildCard) && !Occurs(funcContent, VarEscapeEscape)
    requires FindAll(LocalVariableAt, EscapeLocal(funcContent)) == []
    ensures WithoutLocalTypes(funcContent) == SubKeywords(funcContent, Var)
  {
    var escaped := EscapeLocal(funcContent);
    var r := ScanFrom(LocalVariableAt, escaped, 0);
    assert |r.hits| == 0;
    assert Split(LocalVariableAt, escaped, RecordParts) == [escaped];
    SurvivesKept(escaped, []);
    LocalRoundTrip(funcContent);
  }
}
