/** The declarations the converter collects: list filters (`exclude`,
    `_findDeclarations`) and the patterns for one parameter (`argumentP`) and for one
    escaped local declaration (`localVariableP`). */
module Declarations {
  import opened Text
  import opened Matching
  import opened Escaping

  /** One match of an extraction pattern or of `localVariableP`, as the four groups
      `findall` returns: a comment or keyword, the declared name, a type or argument
      list, and a definition or body. */
  datatype Record = Record(comment: string, name: string, detail: string, body: string)

  /** One match of `argumentP`: name, `:type` and ` = literal`, each "" when absent. */
  datatype Argument = Argument(name: string, dataType: string, definition: string)

  // ---------------------------------------------------------------------------
  // Ordered filters

  /** The items of `l` not in `e`, in order. */
  function Excluded<T(==)>(l: seq<T>, e: seq<T>): seq<T> {
    if |l| == 0 then [] else (if l[0] in e then [] else [l[0]]) + Excluded(l[1..], e)
  }

  /** The items of `l` that are in `m`, in order. */
  function Selected<T(==)>(l: seq<T>, m: seq<T>): seq<T> {
    if |l| == 0 then [] else (if l[0] in m then [l[0]] else []) + Selected(l[1..], m)
  }

  /** The items of `l` at their first occurrence, in order. */
  function FirstOccurrences<T(==)>(l: seq<T>): seq<T> {
    if |l| == 0 then []
    else
      var init := l[..|l| - 1];
      FirstOccurrences(init) + (if l[|l| - 1] in init then [] else [l[|l| - 1]])
  }

  predicate NoDuplicates<T(==)>(l: seq<T>) {
    forall i, j | 0 <= i < j < |l| :: l[i] != l[j]
  }

  /** The items of `f`, all of them in `l`, come in the order of their first occurrences there. */
  predicate InFirstSeenOrder<T(==)>(f: seq<T>, l: seq<T>) {
    forall i, j | 0 <= i < j < |f| :: f[i] in l && f[j] in l && IndexOf(l, f[i]) < IndexOf(l, f[j])
  }

  /** The position of the first occurrence of `x` in `l`. */
  function IndexOf<T(==)>(l: seq<T>, x: T): (k: nat)
    requires x in l
    ensures k < |l| && l[k] == x && x !in l[..k]
  {
    if l[0] == x then 0
    else
      assert l == [l[0]] + l[1..];
      var k := IndexOf(l[1..], x);
      assert l[..k + 1] == [l[0]] + l[1..][..k];
      k + 1
  }

  lemma {:induction false} ExcludedMembers<T>(l: seq<T>, e: seq<T>)
    ensures forall x :: x in Excluded(l, e) <==> x in l && x !in e
  {
    if |l| > 0 {
      ExcludedMembers(l[1..], e);
      assert l == [l[0]] + l[1..];
    }
  }

  /** Excluding splits over a concatenation: the order of the kept items is theirs. */
  lemma {:induction false} ExcludedConcat<T>(a: seq<T>, b: seq<T>, e: seq<T>)
    ensures Excluded(a + b, e) == Excluded(a, e) + Excluded(b, e)
  {
    if |a| == 0 {
      assert a + b == b;
    } else {
      var head := if a[0] in e then [] else [a[0]];
      assert (a + b)[0] == a[0] && (a + b)[1..] == a[1..] + b;
      calc {
        Excluded(a + b, e);
        head + Excluded(a[1..] + b, e);
        { ExcludedConcat(a[1..], b, e); }
        head + (Excluded(a[1..], e) + Excluded(b, e));
        (head + Excluded(a[1..], e)) + Excluded(b, e);
      }
    }
  }

  /** Excluding nothing that occurs keeps the list as it is. */
  lemma {:induction false} ExcludedNone<T>(l: seq<T>, e: seq<T>)
    requires forall x | x in l :: x !in e
    ensures Excluded(l, e) == l
  {
    if |l| > 0 {
      assert l == [l[0]] + l[1..];
      ExcludedNone(l[1..], e);
    }
  }

  lemma {:induction false} SelectedMembers<T>(l: seq<T>, m: seq<T>)
    ensures forall x :: x in Selected(l, m) <==> x in l && x in m
  {
    if |l| > 0 {
      SelectedMembers(l[1..], m);
      assert l == [l[0]] + l[1..];
    }
  }

  /** Selecting from a list none of whose items is wanted gives nothing. */
  lemma {:induction false} SelectedNone<T>(l: seq<T>, m: seq<T>)
    requires forall x | x in l :: x !in m
    ensures Selected(l, m) == []
  {
    if |l| > 0 {
      assert l[0] in l;
      assert forall x | x in l[1..] :: x in l;
      SelectedNone(l[1..], m);
    }
  }

  lemma {:induction false} SelectedConcat<T>(a: seq<T>, b: seq<T>, m: seq<T>)
    ensures Selected(a + b, m) == Selected(a, m) + Selected(b, m)
  {
    if |a| == 0 {
      assert a + b == b;
    } else {
      var head := if a[0] in m then [a[0]] else [];
      assert (a + b)[0] == a[0] && (a + b)[1..] == a[1..] + b;
      calc {
        Selected(a + b, m);
        head + Selected(a[1..] + b, m);
        { SelectedConcat(a[1..], b, m); }
        head + (Selected(a[1..], m) + Selected(b, m));
        (head + Selected(a[1..], m)) + Selected(b, m);
      }
    }
  }

  lemma FirstOccurrencesSnoc<T>(l: seq<T>, x: T)
    ensures FirstOccurrences(l + [x]) == FirstOccurrences(l) + (if x in l then [] else [x])
  {
    assert (l + [x])[..|l|] == l;
  }

  /** The first occurrences hold every item once. */
  lemma {:induction false} FirstOccurrencesSpec<T>(l: seq<T>)
    ensures forall x :: x in FirstOccurrences(l) <==> x in l
    ensures NoDuplicates(FirstOccurrences(l))
    decreases |l|
  {
    if |l| > 0 {
      var init := l[..|l| - 1];
      assert l == init + [l[|l| - 1]];
      FirstOccurrencesSpec(init);
    }
  }

  /** The first occurrences come in the order in which the items are first seen. */
  lemma {:induction false} FirstOccurrencesOrder<T>(l: seq<T>)
    ensures forall x | x in FirstOccurrences(l) :: x in l
    ensures InFirstSeenOrder(FirstOccurrences(l), l)
    decreases |l|
  {
    FirstOccurrencesSpec(l);
    if |l| > 0 {
      var init, x := l[..|l| - 1], l[|l| - 1];
      assert l == init + [x];
      FirstOccurrencesOrder(init);
      FirstOccurrencesSpec(init);
      var f := FirstOccurrences(l);
      var g := FirstOccurrences(init);
      forall y | y in init ensures IndexOf(l, y) == IndexOf(init, y) {
        var k := IndexOf(init, y);
        assert l[..k] == init[..k];
      }
      assert f == g + (if x in init then [] else [x]);
      forall i, j | 0 <= i < j < |f| ensures IndexOf(l, f[i]) < IndexOf(l, f[j]) {
        assert f[i] == g[i];
        assert g[i] in g;
        assert f[i] in init;
        assert IndexOf(l, f[i]) == IndexOf(init, f[i]);
        if j < |g| {
          assert f[j] == g[j];
          assert g[j] in g;
          assert IndexOf(l, f[j]) == IndexOf(init, f[j]);
          assert InFirstSeenOrder(g, init);
        } else {
          assert x !in init && f[j] == x;
          assert IndexOf(init, f[i]) < |init|;
        }
      }
    }
  }

  /** `exclude` (as2js.py:567-576): a new list of the items not in `exclusions`. */
  method Exclude<T(==)>(list: seq<T>, exclusions: seq<T>) returns (included: seq<T>)
    ensures included == Excluded(list, exclusions)
  {
    included := [];
    var k := 0;
    while k < |list|
      invariant 0 <= k <= |list|
      invariant included == Excluded(list[..k], exclusions)
    {
      var item := list[k];
      ExcludedConcat(list[..k], [item], exclusions);
      assert list[..k + 1] == list[..k] + [item];
      if !(item in exclusions) {
        included := included + [item];
      }
      k := k + 1;
    }
    assert list[..k] == list;
  }

  function Names(rs: seq<Record>): (ns: seq<string>)
    ensures |ns| == |rs| && forall k | 0 <= k < |rs| :: ns[k] == rs[k].name
  {
    if |rs| == 0 then [] else [rs[0].name] + Names(rs[1..])
  }

  /** The declared names of several pattern's matches, pattern after pattern. */
  function AllNames(found: seq<seq<Record>>): seq<string> {
    if |found| == 0 then [] else AllNames(found[..|found| - 1]) + Names(found[|found| - 1])
  }

  /** The names `_findDeclarations` returns for the given matches: the names not
      excluded, each at its first occurrence. */
  function Declarations(found: seq<seq<Record>>, excludes: seq<string>): seq<string> {
    FirstOccurrences(Excluded(AllNames(found), excludes))
  }

  /** Every name matched and not excluded is declared once, in first-seen order. */
  lemma DeclarationsSpec(found: seq<seq<Record>>, excludes: seq<string>)
    ensures var d := Declarations(found, excludes);
      && (forall x :: x in d <==> x in AllNames(found) && x !in excludes)
      && NoDuplicates(d)
      && InFirstSeenOrder(d, Excluded(AllNames(found), excludes))
  {
    var l := Excluded(AllNames(found), excludes);
    var d := FirstOccurrences(l);
    ExcludedMembers(AllNames(found), excludes);
    FirstOccurrencesSpec(l);
    FirstOccurrencesOrder(l);
    forall x ensures x in d <==> x in AllNames(found) && x !in excludes {
      assert x in d <==> x in l;
    }
  }

  /** One more name seen by `_findDeclarations`. */
  lemma DeclareStep(seen: seq<string>, x: string, excludes: seq<string>)
    ensures FirstOccurrences(Excluded(seen + [x], excludes))
         == FirstOccurrences(Excluded(seen, excludes))
            + (if x !in excludes && x !in FirstOccurrences(Excluded(seen, excludes)) then [x] else [])
  {
    var l := Excluded(seen, excludes);
    ExcludedConcat(seen, [x], excludes);
    assert Excluded([x], excludes) == if x in excludes then [] else [x];
    FirstOccurrencesSpec(l);
    if x !in excludes {
      FirstOccurrencesSnoc(l, x);
    } else {
      assert l + [] == l;
    }
  }

  /** One more match seen by the inner loop of `_findDeclarations`. */
  lemma NamesStep(before: seq<string>, props: seq<Record>, q: nat)
    requires q < |props|
    ensures before + Names(props[..q + 1]) == (before + Names(props[..q])) + [props[q].name]
  {
    assert Names(props[..q + 1]) == Names(props[..q]) + [props[q].name];
  }

  /** One more pattern seen by the outer loop of `_findDeclarations`. */
  lemma AllNamesStep(found: seq<seq<Record>>, p: nat)
    requires p < |found|
    ensures AllNames(found[..p + 1]) == AllNames(found[..p]) + Names(found[p])
  {
    assert found[..p + 1][..p] == found[..p];
  }

  /** `_findDeclarations` (as2js.py:468-476), for the matches each pattern finds. */
  method FindDeclarations(found: seq<seq<Record>>, excludes: seq<string>) returns (declarations: seq<string>)
    ensures declarations == Declarations(found, excludes)
  {
    declarations := [];
    var p := 0;
    while p < |found|
      invariant 0 <= p <= |found|
      invariant declarations == FirstOccurrences(Excluded(AllNames(found[..p]), excludes))
    {
      var props := found[p];
      ghost var before := AllNames(found[..p]);
      var q := 0;
      assert before + Names(props[..0]) == before;
      while q < |props|
        invariant 0 <= q <= |props|
        invariant declarations == FirstOccurrences(Excluded(before + Names(props[..q]), excludes))
      {
        var declaration := props[q].name;
        NamesStep(before, props, q);
        DeclareStep(before + Names(props[..q]), declaration, excludes);
        if declaration !in excludes {
          if declaration !in declarations {
            declarations := declarations + [declaration];
          }
        }
        q := q + 1;
      }
      assert props[..q] == props;
      AllNamesStep(found, p);
      p := p + 1;
    }
    assert found[..p] == found;
  }

  // ---------------------------------------------------------------------------
  // One parameter: `(\w+)\s*(:\w+)?(\s*=\s*[\w\-\."\'\\]+)?`

  predicate IsLiteralChar(c: char) {
    IsWordChar(c) || c == '-' || c == '.' || c == '"' || c == '\'' || c == '\\'
  }

  /** The optional group `(:\w+)` can match at `k`. */
  predicate TypeFollows(s: string, k: nat) {
    k + 1 < |s| && s[k] == ':' && IsWordChar(s[k + 1])
  }

  /** The optional group `(\s*=\s*literal)` can match at `k`: after the longest run of
      whitespace an `=`, and after the whitespace that follows it a literal character.
      A shorter run of whitespace would leave a space where `=` or the literal must be. */
  predicate DefinitionFollows(s: string, k: nat)
    requires k <= |s|
  {
    var a := SpanEnd(s, k, IsSpace);
    a < |s| && s[a] == '=' && var b := SpanEnd(s, a + 1, IsSpace); b < |s| && IsLiteralChar(s[b])
  }

  /** A character that `argumentP` can consume: `&` is none of them. */
  predicate IsArgumentChar(c: char) {
    IsLiteralChar(c) || IsSpace(c) || c == ':' || c == '='
  }

  /** Where the optional group `(\s*=\s*literal)` ends when tried at `j`; `j` itself
      when it does not match. The literal is the longest run of literal characters. */
  function DefinitionEnd(s: string, j: nat): (e: nat)
    requires j <= |s|
    ensures j <= e <= |s|
    ensures e > j <==> DefinitionFollows(s, j)
    ensures e > j ==> var a := SpanEnd(s, j, IsSpace); var b := SpanEnd(s, a + 1, IsSpace);
      b < e && Run(s, b, e, IsLiteralChar) && (e == |s| || !IsLiteralChar(s[e]))
    ensures e > j ==> s[j] == '=' || IsSpace(s[j])
    ensures Run(s, j, e, IsArgumentChar)
  {
    var a := SpanEnd(s, j, IsSpace);
    if a < |s| && s[a] == '=' then
      var b := SpanEnd(s, a + 1, IsSpace);
      var c := SpanEnd(s, b, IsLiteralChar);
      if c > b then c else j
    else j
  }

  /** Where the optional group `(:\w+)` ends when tried at `j`; `j` when it does not
      match. The name is the longest run of word characters. */
  function TypeEnd(s: string, j: nat): (e: nat)
    requires j <= |s|
    ensures j <= e <= |s|
    ensures e > j <==> TypeFollows(s, j)
    ensures e > j ==> e > j + 1 && s[j] == ':' && Run(s, j + 1, e, IsWordChar) && (e == |s| || !IsWordChar(s[e]))
    ensures Run(s, j, e, IsArgumentChar)
  {
    if TypeFollows(s, j) then SpanEnd(s, j + 1, IsWordChar) else j
  }

  /** What the parameter pattern matched from `j` consists of: a name that ends where
      the word ends, `:type` or nothing, and a definition that starts with whitespace
      or `=`, or nothing. */
  predicate ArgumentShape(s: string, j: nat, r: Span<Argument>) {
    && j < r.end <= |s|
    && IsIdentifier(r.groups.name) && OccursAt(s, r.groups.name, j)
    && (var n := j + |r.groups.name|; n == |s| || !IsWordChar(s[n]))
    && (r.groups.dataType == "" || r.groups.dataType[0] == ':')
    && (r.groups.definition == "" || r.groups.definition[0] == '=' || IsSpace(r.groups.definition[0]))
  }

  /** The groups of a parameter match laid out one after the other from `j`: the name,
      the whitespace after it (in no group), the type from `sp` and the definition
      from `t`. The type is taken exactly when `:` and a word character follow the
      whitespace, and the definition exactly when `= literal` follows the type. */
  predicate ArgumentGroups(s: string, j: nat, r: Span<Argument>) {
    var n := j + |r.groups.name|;
    && n <= |s|
    && var sp := SpanEnd(s, n, IsSpace);
    && var t := sp + |r.groups.dataType|;
    && t <= |s| && r.groups.dataType == s[sp..t]
    && (r.groups.dataType != "" <==> TypeFollows(s, sp))
    && t + |r.groups.definition| == r.end && r.end <= |s| && r.groups.definition == s[t..r.end]
    && (r.groups.definition != "" <==> DefinitionFollows(s, t))
  }

  lemma ArgumentFound(s: string, j: nat, n: nat, sp: nat, t: nat, d: nat)
    requires j < n <= sp <= t <= d <= |s|
    requires forall k | j <= k < n :: IsWordChar(s[k])
    requires n == |s| || !IsWordChar(s[n])
    requires t > sp ==> s[sp] == ':'
    requires d > t ==> s[t] == '=' || IsSpace(s[t])
    ensures ArgumentShape(s, j, Span(d, Argument(s[j..n], s[sp..t], s[t..d])))
  {
  }

  lemma ArgumentLaidOut(s: string, j: nat, n: nat, sp: nat, t: nat, d: nat)
    requires j <= n <= sp <= t <= d <= |s|
    requires sp == SpanEnd(s, n, IsSpace)
    requires t > sp <==> TypeFollows(s, sp)
    requires d > t <==> DefinitionFollows(s, t)
    ensures ArgumentGroups(s, j, Span(d, Argument(s[j..n], s[sp..t], s[t..d])))
  {
    var g := Argument(s[j..n], s[sp..t], s[t..d]);
    assert j + |g.name| == n && sp + |g.dataType| == t && t + |g.definition| == d;
  }

  lemma ArgumentChars(s: string, j: nat, n: nat, sp: nat, t: nat, d: nat)
    requires j <= n <= sp <= t <= d <= |s|
    requires Run(s, j, n, IsWordChar) && Run(s, n, sp, IsSpace)
    requires Run(s, sp, t, IsArgumentChar) && Run(s, t, d, IsArgumentChar)
    ensures Run(s, j, d, IsArgumentChar)
  {
  }

  /** The parameter pattern from a word character at `j`: its end and its groups. */
  function ArgumentFrom(s: string, j: nat): (r: Span<Argument>)
    requires j < |s| && IsWordChar(s[j])
    ensures ArgumentShape(s, j, r)
    ensures Run(s, j, r.end, IsArgumentChar)
  {
    var n := SpanEnd(s, j, IsWordChar);
    var sp := SpanEnd(s, n, IsSpace);
    var t := TypeEnd(s, sp);
    var d := DefinitionEnd(s, t);
    ArgumentFound(s, j, n, sp, t, d);
    ArgumentChars(s, j, n, sp, t, d);
    Span(d, Argument(s[j..n], s[sp..t], s[t..d]))
  }

  /** Every repetition of the parameter pattern takes the longest run, since what
      follows it cannot belong to it, and an optional group is taken whenever it can
      match: `:type` whenever `:` and a word character follow the whitespace after the
      name, and the definition whenever `= literal` follows the type. */
  lemma ArgumentFromGroups(s: string, j: nat)
    requires j < |s| && IsWordChar(s[j])
    ensures ArgumentGroups(s, j, ArgumentFrom(s, j))
  {
    var n := SpanEnd(s, j, IsWordChar);
    var sp := SpanEnd(s, n, IsSpace);
    var t := TypeEnd(s, sp);
    var d := DefinitionEnd(s, t);
    ArgumentLaidOut(s, j, n, sp, t, d);
  }

  /** `argumentP` tried at `i`. The name needs no boundary before it, so a match may
      start inside a word only where the previous match ended. */
  function ArgumentAt(s: string, i: nat): (r: Option<Span<Argument>>)
    ensures r.Some? <==> i < |s| && IsWordChar(s[i])
  {
    if i < |s| && IsWordChar(s[i]) then Some(ArgumentFrom(s, i)) else None
  }

  /** The parameters `argumentP.findall` finds in an argument list. */
  function Arguments(argumentAS: string): seq<Argument> {
    FindAll(ArgumentAt, argumentAS)
  }

  /** Every parameter found is named by a word and carries `:type` or no type. */
  lemma ArgumentsShaped(argumentAS: string)
    ensures var arguments := Arguments(argumentAS);
      forall k | 0 <= k < |arguments| ::
        IsIdentifier(arguments[k].name) && (arguments[k].dataType == "" || arguments[k].dataType[0] == ':')
  {
    var arguments := Arguments(argumentAS);
    forall k | 0 <= k < |arguments|
      ensures IsIdentifier(arguments[k].name) && (arguments[k].dataType == "" || arguments[k].dataType[0] == ':')
    {
      var pos := FoundAt(ArgumentAt, argumentAS, 0, arguments[k]);
      assert ArgumentAt(argumentAS, pos).Some?;
    }
  }

  // ---------------------------------------------------------------------------
  // One escaped local declaration: `(&\s+)` followed by the parameter pattern

  /** The groups of a match of `localVariableP`: the escape and the whitespace after
      it, a name, `:type` or nothing, and a definition that starts with whitespace or
      `=`, or nothing. */
  predicate DeclShape(r: Record) {
    && |r.comment| > 0 && r.comment[0] == VarEscape && IsIdentifier(r.name)
    && (r.detail == "" || r.detail[0] == ':')
    && (r.body == "" || r.body[0] == '=' || IsSpace(r.body[0]))
  }

  /** `localVariableP` tried at `i`: the groups keyword, declaration, dataType and
      definition. */
  function LocalVariableAt(s: string, i: nat): (r: Option<Span<Record>>)
    ensures r.Some? <==>
      && i < |s| && s[i] == VarEscape
      && var w := SpanEnd(s, i + 1, IsSpace); w > i + 1 && w < |s| && IsWordChar(s[w])
    ensures r.Some? ==> DeclShape(r.value.groups)
  {
    if i < |s| && s[i] == VarEscape then
      var w := SpanEnd(s, i + 1, IsSpace);
      if w > i + 1 && w < |s| && IsWordChar(s[w]) then
        var a := ArgumentFrom(s, w);
        Some(Span(a.end, Record(s[i..w], a.groups.name, a.groups.dataType, a.groups.definition)))
      else None
    else None
  }

  /** `&`, the whitespace up to `w` and the whole word `name` at `w`: where the escaped
      text declares the local `name`. */
  predicate LocalNameSite(s: string, i: nat, w: nat, name: string) {
    && i + 1 < w <= |s| && s[i] == VarEscape && Run(s, i + 1, w, IsSpace)
    && IsIdentifier(name) && OccursAt(s, name, w)
    && (w + |name| == |s| || !IsWordChar(s[w + |name|]))
  }

  /** A match of `localVariableP` at `i` declares its name at a local-name site, and
      what it consumes after the whitespace are characters of a parameter. */
  lemma LocalVariableSpans(s: string, i: nat)
    requires LocalVariableAt(s, i).Some?
    ensures var r := LocalVariableAt(s, i).value; var w := SpanEnd(s, i + 1, IsSpace);
      && w < r.end <= |s| && LocalNameSite(s, i, w, r.groups.name)
      && Run(s, w, r.end, IsArgumentChar)
  {
    var w := SpanEnd(s, i + 1, IsSpace);
    var a := ArgumentFrom(s, w);
    assert LocalVariableAt(s, i) == Some(Span(a.end, Record(s[i..w], a.groups.name, a.groups.dataType, a.groups.definition)));
    assert ArgumentShape(s, w, a);
    assert i + 1 < w && s[i] == VarEscape && Run(s, i + 1, w, IsSpace);
  }

  /** A match of `localVariableP` consumes no `&` after its first character, so no
      match reaches over the start of a later one. */
  lemma LocalVariableEndsBefore(s: string, p: nat, k: nat)
    requires p < k < |s| && s[k] == VarEscape && LocalVariableAt(s, p).Some?
    ensures LocalVariableAt(s, p).value.end <= k
  {
    LocalVariableSpans(s, p);
    assert !IsSpace(s[k]) && !IsArgumentChar(s[k]);
  }

  /** Each name found is declared at a local-name site. */
  lemma LocalNameFoundAtSite(escaped: string, v: Record) returns (i: nat, w: nat)
    requires v in FindAll(LocalVariableAt, escaped)
    ensures LocalNameSite(escaped, i, w, v.name)
  {
    i := FoundAt(LocalVariableAt, escaped, 0, v);
    w := SpanEnd(escaped, i + 1, IsSpace);
    LocalVariableSpans(escaped, i);
  }

  /** At a local-name site `localVariableP` matches, with that name. */
  lemma LocalNameSiteMatches(s: string, i: nat, w: nat, name: string)
    requires LocalNameSite(s, i, w, name)
    ensures MatchAt(LocalVariableAt, s, i).Some? && MatchAt(LocalVariableAt, s, i).value.groups.name == name
  {
    LocalNameSiteStarts(s, i, w, name);
    LocalVariableSpans(s, i);
    var r := LocalVariableAt(s, i).value;
    WholeWordsEqual(s, w, r.groups.name, name);
  }

  lemma LocalNameSiteStarts(s: string, i: nat, w: nat, name: string)
    requires LocalNameSite(s, i, w, name)
    ensures SpanEnd(s, i + 1, IsSpace) == w && LocalVariableAt(s, i).Some?
  {
    SpanEndUnique(s, i + 1, IsSpace, w);
    assert s[w..w + |name|][0] == s[w];
  }

  /** Two whole words at the same position are the same. */
  lemma WholeWordsEqual(s: string, w: nat, a: string, b: string)
    requires IsIdentifier(a) && OccursAt(s, a, w) && (w + |a| == |s| || !IsWordChar(s[w + |a|]))
    requires IsIdentifier(b) && OccursAt(s, b, w) && (w + |b| == |s| || !IsWordChar(s[w + |b|]))
    ensures a == b
  {
    if |a| < |b| {
      LongerWordContinues(s, w, a, b);
      assert false;
    } else if |b| < |a| {
      LongerWordContinues(s, w, b, a);
      assert false;
    }
  }

  /** Where a shorter word ends inside a longer one, a word character follows it. */
  lemma LongerWordContinues(s: string, w: nat, short: string, long: string)
    requires OccursAt(s, short, w) && OccursAt(s, long, w) && |short| < |long|
    requires IsIdentifier(long)
    ensures w + |short| < |s| && IsWordChar(s[w + |short|])
  {
    assert s[w..w + |long|][|short|] == long[|short|];
  }

  /** Each local-name site is found. */
  lemma LocalNameSiteFound(escaped: string, i: nat, w: nat, name: string)
    requires LocalNameSite(escaped, i, w, name)
    ensures name in Names(FindAll(LocalVariableAt, escaped))
  {
    LocalNameSiteMatches(escaped, i, w, name);
    forall p | 0 <= p < i && MatchAt(LocalVariableAt, escaped, p).Some?
      ensures MatchAt(LocalVariableAt, escaped, p).value.end <= i
    {
      LocalVariableEndsBefore(escaped, p, i);
    }
    FindAllEvery(LocalVariableAt, escaped, 0, i);
    NameInNames(FindAll(LocalVariableAt, escaped), MatchAt(LocalVariableAt, escaped, i).value.groups);
  }

  lemma NameInNames(rs: seq<Record>, r: Record)
    requires r in rs
    ensures r.name in Names(rs)
  {
    var k :| 0 <= k < |rs| && rs[k] == r;
    assert Names(rs)[k] == r.name;
  }

  /** Every escaped local declaration found has the shape of the pattern. */
  lemma LocalVariableShaped(escaped: string, v: Record)
    requires v in FindAll(LocalVariableAt, escaped)
    ensures DeclShape(v)
  {
    var pos := FoundAt(LocalVariableAt, escaped, 0, v);
    assert LocalVariableAt(escaped, pos).Some?;
  }

  lemma LocalVariablesShaped(escaped: string)
    ensures var found := FindAll(LocalVariableAt, escaped);
      forall k | 0 <= k < |found| :: DeclShape(found[k])
  {
    var found := FindAll(LocalVariableAt, escaped);
    forall k | 0 <= k < |found| ensures DeclShape(found[k]) {
      LocalVariableShaped(escaped, found[k]);
    }
  }

  /** `_findLocalDeclarations` (as2js.py:559-564): the names of the escaped local
      declarations, in order. */
  function FindLocalDeclarations(funcContent: string): (declarations: seq<string>)
    ensures forall k | 0 <= k < |declarations| :: IsIdentifier(declarations[k])
  {
    var variables := FindAll(LocalVariableAt, EscapeLocal(funcContent));
    LocalVariablesShaped(EscapeLocal(funcContent));
    Names(variables)
  }

  /** A name is a local declaration exactly when the escaped body holds `&`,
      whitespace and the whole word `name`: as a match consumes no second `&`, every
      such site is found. */
  lemma LocalDeclarationsFound(funcContent: string, name: string)
    ensures name in FindLocalDeclarations(funcContent)
        <==> exists i: nat, w: nat :: LocalNameSite(EscapeLocal(funcContent), i, w, name)
  {
    var escaped := EscapeLocal(funcContent);
    var found := FindAll(LocalVariableAt, escaped);
    if name in FindLocalDeclarations(funcContent) {
      var k :| 0 <= k < |found| && found[k].name == name;
      var i, w := LocalNameFoundAtSite(escaped, found[k]);
    }
    if exists i: nat, w: nat :: LocalNameSite(escaped, i, w, name) {
      var i: nat, w: nat :| LocalNameSite(escaped, i, w, name);
      LocalNameSiteFound(escaped, i, w, name);
    }
  }

  /** A whole-word `var` or `const`, whitespace and a name that is not itself a keyword
      declare that name as a local, wherever they stand in a body free of `:*`. */
  lemma KeywordDeclaresLocal(a: string, kw: string, ws: string, name: string, rest: string)
    requires IsKeyword(kw)
    requires |a| == 0 || !IsWordChar(a[|a| - 1])
    requires |ws| > 0 && forall k | 0 <= k < |ws| :: IsSpace(ws[k])
    requires IsIdentifier(name) && !IsKeyword(name)
    requires |rest| == 0 || !IsWordChar(rest[0])
    requires !Occurs(a + kw + ws + name + rest, WildCard)
    ensures name in FindLocalDeclarations(a + kw + ws + name + rest)
  {
    var x := a + kw + ws + name + rest;
    var sa := SubKeywords(ReplaceAll(a, [VarEscape], VarEscapeEscape), [VarEscape]);
    var sr := SubKeywords(ReplaceAll(rest, [VarEscape], VarEscapeEscape), [VarEscape]);
    EscapedDeclaration(a, kw, ws, name, rest);
    ExpandStartsNonWord(rest);
    if |sr| > 0 {
      FirstNonWord(ReplaceAll(rest, [VarEscape], VarEscapeEscape), [VarEscape]);
    }
    SiteInLayout(sa, ws, name, sr);
    LocalDeclarationsFound(x, name);
  }

  /** How the local escape lays out such a declaration: the keyword becomes `&` and the
      whitespace and name are kept. */
  lemma EscapedDeclaration(a: string, kw: string, ws: string, name: string, rest: string)
    requires IsKeyword(kw)
    requires |a| == 0 || !IsWordChar(a[|a| - 1])
    requires |ws| > 0 && forall k | 0 <= k < |ws| :: IsSpace(ws[k])
    requires IsIdentifier(name) && !IsKeyword(name)
    requires |rest| == 0 || !IsWordChar(rest[0])
    requires !Occurs(a + kw + ws + name + rest, WildCard)
    ensures EscapeLocal(a + kw + ws + name + rest)
      == SubKeywords(ReplaceAll(a, [VarEscape], VarEscapeEscape), [VarEscape])
        + ([VarEscape] + ws + name)
        + SubKeywords(ReplaceAll(rest, [VarEscape], VarEscapeEscape), [VarEscape])
  {
    var x := a + kw + ws + name + rest;
    var ea := ReplaceAll(a, [VarEscape], VarEscapeEscape);
    var er := ReplaceAll(rest, [VarEscape], VarEscapeEscape);
    var mid := kw + ws + name;
    WildCardUnchanged(x);
    Assoc(a, kw + ws, name);
    Assoc(a, kw, ws);
    NoEscapeInDeclaration(kw, ws, name);
    ExpandedDeclaration(a, mid, rest);
    ExpandEndsNonWord(a);
    SubKeywordsConcat(ea, mid + er, [VarEscape]);
    KeywordTurned(kw, ws, name, er);
    Assoc(SubKeywords(ea, [VarEscape]), [VarEscape] + ws + name, SubKeywords(er, [VarEscape]));
  }

  lemma NoEscapeInDeclaration(kw: string, ws: string, name: string)
    requires IsKeyword(kw)
    requires forall k | 0 <= k < |ws| :: IsSpace(ws[k])
    requires IsIdentifier(name)
    ensures VarEscape !in kw + ws + name
  {
    var mid := kw + ws + name;
    forall k | 0 <= k < |mid| ensures mid[k] != VarEscape {
      if k < |kw| {
        assert mid[k] == kw[k];
      } else if k < |kw| + |ws| {
        assert mid[k] == ws[k - |kw|];
      } else {
        assert mid[k] == name[k - |kw| - |ws|];
      }
    }
  }

  /** Writing out `&` leaves a keyword, whitespace and a name alone. */
  lemma ExpandedDeclaration(a: string, mid: string, rest: string)
    requires VarEscape !in mid
    ensures ReplaceAll(a + mid + rest, [VarEscape], VarEscapeEscape)
      == ReplaceAll(a, [VarEscape], VarEscapeEscape) + (mid + ReplaceAll(rest, [VarEscape], VarEscapeEscape))
  {
    ReplaceCharConcat(a + mid, rest, VarEscape, VarEscapeEscape);
    ReplaceCharConcat(a, mid, VarEscape, VarEscapeEscape);
    CharAbsent(mid, VarEscape);
    ReplaceAbsent(mid, [VarEscape], VarEscapeEscape);
    Assoc(ReplaceAll(a, [VarEscape], VarEscapeEscape), mid, ReplaceAll(rest, [VarEscape], VarEscapeEscape));
  }

  /** The keyword substitution turns the keyword into `&` and keeps the whitespace and
      the name. */
  lemma KeywordTurned(kw: string, ws: string, name: string, er: string)
    requires IsKeyword(kw)
    requires |ws| > 0 && forall k | 0 <= k < |ws| :: IsSpace(ws[k])
    requires IsIdentifier(name) && !IsKeyword(name)
    requires |er| == 0 || !IsWordChar(er[0])
    ensures SubKeywords(kw + ws + name + er, [VarEscape]) == [VarEscape] + ws + name + SubKeywords(er, [VarEscape])
  {
    var rep := [VarEscape];
    var t := name + er;
    var u := ws + t;
    Assoc(kw + ws, name, er);
    Assoc(kw, ws, t);
    assert AllWord(kw) && u[0] == ws[0];
    RunSplit(kw, u, rep);
    SubKeywordsConcat(ws, t, rep);
    NonWordsFixed(ws, rep);
    RunSplit(name, er, rep);
    var ser := SubKeywords(er, rep);
    Assoc(ws, name, ser);
    Assoc(rep, ws + name, ser);
    Assoc(rep, ws, name);
  }

  /** Where the layout puts `&`, the whitespace and the name, there is a local-name site. */
  lemma SiteInLayout(sa: string, ws: string, name: string, sr: string)
    requires |ws| > 0 && forall k | 0 <= k < |ws| :: IsSpace(ws[k])
    requires IsIdentifier(name)
    requires |sr| == 0 || !IsWordChar(sr[0])
    ensures LocalNameSite(sa + ([VarEscape] + ws + name) + sr, |sa|, |sa| + 1 + |ws|, name)
  {
    var e := sa + ([VarEscape] + ws + name) + sr;
    var w := |sa| + 1 + |ws|;
    assert e[|sa|] == VarEscape;
    assert forall k | |sa| + 1 <= k < w :: e[k] == ws[k - |sa| - 1];
    assert e[w..w + |name|] == name;
    assert w + |name| < |e| ==> e[w + |name|] == sr[0];
  }
}
