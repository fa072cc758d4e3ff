/** `scopeMembers` (as2js.py:579-624): a member of the class that a method body uses
    without qualification is given the scope it belongs to (`this.` for an instance
    member, the class name for a static one). The two regular expressions the source
    builds for each identifier are modelled as matchers, and each is proved to insert
    the scope at exactly the positions a plain predicate describes. */
module Scope {
  import opened Text
  import opened Matching
  import opened Declarations

  /** `[^\w\."\']`: a character that may stand before an unqualified name. */
  predicate IsLead(c: char) {
    !IsWordChar(c) && c != '.' && c != '"' && c != '\''
  }

  /** `identifierP` (as2js.py:579) tried at `i`: a run of lead characters, then a word,
      whose group is the word. */
  function IdentifierAt(s: string, i: nat): (r: Option<Span<string>>)
    ensures r.Some? <==>
      i < |s| && IsLead(s[i]) && SpanEnd(s, i, IsLead) < |s| && IsWordChar(s[SpanEnd(s, i, IsLead)])
    ensures r.Some? ==>
      var e := SpanEnd(s, i, IsLead);
      IsIdentifier(r.value.groups) && OccursAt(s, r.value.groups, e)
      && (e + |r.value.groups| == |s| || !IsWordChar(s[e + |r.value.groups|]))
  {
    if i < |s| && IsLead(s[i]) then
      var e := SpanEnd(s, i, IsLead);
      if e < |s| && IsWordChar(s[e]) then
        var w := SpanEnd(s, e, IsWordChar);
        Some(Span(w, s[e..w]))
      else None
    else None
  }

  /** Every identifier `identifierP.findall` returns is a word. */
  lemma IdentifiersAreWords(s: string, x: string)
    requires x in FindAll(IdentifierAt, s)
    ensures IsIdentifier(x)
  {
    var k := FoundAt(IdentifierAt, s, 0, x);
  }

  /** What the replacement `\1scope.\2` reads: the text before the name and the name. */
  datatype Qualified = Qualified(lead: string, name: string)

  function QualifyWith(scope: string, q: Qualified): string {
    q.lead + (scope + ".") + q.name
  }

  function Qualify(scope: string): Qualified -> string {
    q => QualifyWith(scope, q)
  }

  // ---------------------------------------------------------------------------
  // Where a scope goes

  /** An unqualified use of member `id` at `k`: after a lead character, a whole word,
      and not a key of an object literal (`(?!:)`). */
  predicate MemberSite(s: string, id: string, k: nat) {
    0 < k <= |s| && IsLead(s[k - 1]) && Boundary(s, k) && OccursAt(s, id, k)
    && Boundary(s, k + |id|) && !(k + |id| < |s| && s[k + |id|] == ':')
  }

  /** Where the word `case` stands before the spaces that end at `k`. */
  function CaseKeyword(s: string, k: nat): int
    requires k <= |s|
  {
    SpanStart(s, k, IsSpace) - 4
  }

  /** The letters `case` at `i`. */
  predicate CaseWordAt(s: string, i: int) {
    0 <= i && i + 4 <= |s| && s[i] == 'c' && s[i + 1] == 'a' && s[i + 2] == 's' && s[i + 3] == 'e'
  }

  /** End of the run of `\s` from `i`: `SpanEnd(s, i, IsSpace)` (see `SpacesEndSpan`),
      stated apart from the properties of the run to keep the `case` proofs small. */
  function SpacesEnd(s: string, i: nat): (j: nat)
    requires i <= |s|
    ensures i <= j <= |s|
    decreases |s| - i
  {
    if i == |s| || !IsSpace(s[i]) then i else SpacesEnd(s, i + 1)
  }

  lemma {:induction false} SpacesEndSpan(s: string, i: nat)
    requires i <= |s|
    ensures SpacesEnd(s, i) == SpanEnd(s, i, IsSpace)
    decreases |s| - i
  {
    if i < |s| && IsSpace(s[i]) {
      SpacesEndSpan(s, i + 1);
    }
  }

  /** The label of a `case` at `k`: the whole word `case`, spaces, `id`, spaces, `:`. */
  predicate CaseSite(s: string, id: string, k: nat) {
    k <= |s| && SpanStart(s, k, IsSpace) < k && 0 <= CaseKeyword(s, k)
    && Boundary(s, CaseKeyword(s, k)) && CaseWordAt(s, CaseKeyword(s, k))
    && Boundary(s, k) && OccursAt(s, id, k)
    && SpacesEnd(s, k + |id|) < |s| && s[SpacesEnd(s, k + |id|)] == ':'
  }

  function MemberSites(s: string, id: string): nat -> bool {
    (k: nat) => MemberSite(s, id, k)
  }

  function CaseSites(s: string, id: string): nat -> bool {
    (k: nat) => CaseSite(s, id, k)
  }

  /** No site in `[a, b)`. */
  predicate NoSites(site: nat -> bool, a: nat, b: nat) {
    forall k | a <= k < b :: !site(k)
  }

  lemma NoSitesJoin(site: nat -> bool, a: nat, b: nat, c: nat)
    requires a <= b <= c && NoSites(site, a, b) && NoSites(site, b, c)
    ensures NoSites(site, a, c)
  {
  }

  /** `s` from `i` on, with `ins` inserted before the character at every site. */
  function InsertFrom(s: string, i: nat, site: nat -> bool, ins: string): string
    requires i <= |s|
    decreases |s| - i
  {
    if i == |s| then ""
    else if site(i) then ins + ([s[i]] + InsertFrom(s, i + 1, site, ins))
    else [s[i]] + InsertFrom(s, i + 1, site, ins)
  }

  lemma {:induction false} InsertSkip(s: string, i: nat, j: nat, site: nat -> bool, ins: string)
    requires i <= j <= |s|
    requires NoSites(site, i, j)
    ensures InsertFrom(s, i, site, ins) == s[i..j] + InsertFrom(s, j, site, ins)
    decreases j - i
  {
    if i < j {
      InsertSkip(s, i + 1, j, site, ins);
      var later := InsertFrom(s, j, site, ins);
      calc {
        InsertFrom(s, i, site, ins);
        [s[i]] + InsertFrom(s, i + 1, site, ins);
        [s[i]] + (s[i + 1..j] + later);
        { Assoc([s[i]], s[i + 1..j], later); }
        ([s[i]] + s[i + 1..j]) + later;
        { assert [s[i]] + s[i + 1..j] == s[i..j]; }
        s[i..j] + later;
      }
    }
  }

  /** A site at `j`, and none after it before `f`. */
  lemma InsertAt(s: string, j: nat, f: nat, site: nat -> bool, ins: string)
    requires j < f <= |s| && site(j) && NoSites(site, j + 1, f)
    ensures InsertFrom(s, j, site, ins) == ins + (s[j..f] + InsertFrom(s, f, site, ins))
  {
    InsertSkip(s, j + 1, f, site, ins);
    var later := InsertFrom(s, f, site, ins);
    calc {
      InsertFrom(s, j, site, ins);
      ins + ([s[j]] + InsertFrom(s, j + 1, site, ins));
      ins + ([s[j]] + (s[j + 1..f] + later));
      { Assoc([s[j]], s[j + 1..f], later); }
      ins + (([s[j]] + s[j + 1..f]) + later);
      { assert [s[j]] + s[j + 1..f] == s[j..f]; }
      ins + (s[j..f] + later);
    }
  }

  /** Between `i` and `f` there is one site, at `j`. */
  lemma InsertOne(s: string, i: nat, j: nat, f: nat, site: nat -> bool, ins: string)
    requires i <= j < f <= |s| && site(j)
    requires NoSites(site, i, j) && NoSites(site, j + 1, f)
    ensures InsertFrom(s, i, site, ins) == s[i..j] + ins + s[j..f] + InsertFrom(s, f, site, ins)
  {
    InsertSkip(s, i, j, site, ins);
    InsertAt(s, j, f, site, ins);
    var later := InsertFrom(s, f, site, ins);
    calc {
      InsertFrom(s, i, site, ins);
      s[i..j] + InsertFrom(s, j, site, ins);
      s[i..j] + (ins + (s[j..f] + later));
      { Assoc(s[i..j], ins, s[j..f] + later); }
      (s[i..j] + ins) + (s[j..f] + later);
      { Assoc(s[i..j] + ins, s[j..f], later); }
      s[i..j] + ins + s[j..f] + later;
    }
  }

  /** A word found at `k` is made of word characters. */
  lemma OccursWord(s: string, id: string, k: nat)
    requires IsIdentifier(id)
    ensures OccursAt(s, id, k) ==> k < |s| && forall m | k <= m < k + |id| :: IsWordChar(s[m])
  {
    if OccursAt(s, id, k) {
      forall m | k <= m < k + |id| ensures IsWordChar(s[m]) {
        assert s[m] == s[k..k + |id|][m - k];
      }
    }
  }

  /** Where there is no site, nothing is inserted. */
  lemma InsertNowhere(s: string, site: nat -> bool, ins: string)
    requires NoSites(site, 0, |s|)
    ensures InsertFrom(s, 0, site, ins) == s
  {
    InsertSkip(s, 0, |s|, site, ins);
    assert s[0..|s|] == s;
  }

  /** One step of `re.sub` at `k` agrees with the insertion: where the pattern does not
      match, `k` is no site; where it matches, the match spans exactly one site `p`
      and is replaced by its own text with `ins` put before `p`. `good` says from
      which positions the scan may be resumed. */
  predicate SubStepInserts<T>(m: Matcher<T>, s: string, k: nat, repl: T -> string,
                              site: nat -> bool, ins: string, good: nat -> bool)
    requires k < |s|
  {
    match MatchAt(m, s, k)
    case None => !site(k) && good(k + 1)
    case Some(sp) =>
      good(sp.end)
      && exists p | k <= p < sp.end && site(p) ::
           NoSites(site, k, p) && NoSites(site, p + 1, sp.end)
           && repl(sp.groups) == s[k..p] + ins + s[p..sp.end]
  }

  /** A substitution that agrees with the insertion step by step agrees with it. */
  lemma {:induction false} SubInsertFrom<T>(m: Matcher<T>, s: string, i: nat, repl: T -> string,
                                            site: nat -> bool, ins: string, good: nat -> bool)
    requires i <= |s| && good(i)
    requires forall k: nat | k < |s| && good(k) :: SubStepInserts(m, s, k, repl, site, ins, good)
    ensures SubFrom(m, s, i, repl) == InsertFrom(s, i, site, ins)
    decreases |s| - i
  {
    if i < |s| {
      assert SubStepInserts(m, s, i, repl, site, ins, good);
      SubFromUnfold(m, s, i, repl);
      match MatchAt(m, s, i)
      case None =>
        SubInsertFrom(m, s, i + 1, repl, site, ins, good);
      case Some(sp) =>
        var p :| i <= p < sp.end && site(p) && NoSites(site, i, p) && NoSites(site, p + 1, sp.end)
          && repl(sp.groups) == s[i..p] + ins + s[p..sp.end];
        InsertOne(s, i, p, sp.end, site, ins);
        SubInsertFrom(m, s, sp.end, repl, site, ins, good);
    }
  }

  // ---------------------------------------------------------------------------
  // `([^\w\."\']+)\b(id)\b(?!:)` replaced by `\1scope.\2`

  function MemberMatch(id: string, s: string, i: nat): Option<Span<Qualified>> {
    if i < |s| && IsLead(s[i]) then
      var e := SpanEnd(s, i, IsLead);
      var f := e + |id|;
      if Boundary(s, e) && OccursAt(s, id, e) && Boundary(s, f) && !(f < |s| && s[f] == ':')
      then Some(Span(f, Qualified(s[i..e], id)))
      else None
    else None
  }

  function MemberAt(id: string): Matcher<Qualified> {
    (s: string, i: nat) => MemberMatch(id, s, i)
  }

  /** A site right after a lead character is where the pattern matches one character
      earlier. */
  lemma MemberMatchesBefore(s: string, id: string, i: nat)
    requires IsIdentifier(id) && i < |s|
    ensures MemberSite(s, id, i + 1) ==> MatchAt(MemberAt(id), s, i).Some?
  {
    if MemberSite(s, id, i + 1) {
      SpanEndUnique(s, i, IsLead, i + 1);
    }
  }

  /** No use of `id` starts inside a run of lead characters. */
  lemma LeadRunNoSites(s: string, id: string, i: nat, e: nat)
    requires IsIdentifier(id) && i <= e <= |s|
    requires forall m | i <= m < e :: IsLead(s[m])
    ensures NoSites(MemberSites(s, id), i + 1, e)
  {
    forall k | i < k < e ensures !MemberSite(s, id, k) {
      OccursWord(s, id, k);
    }
  }

  /** No use of `id` starts inside or right after a word. */
  lemma WordNoSites(s: string, id: string, e: nat)
    requires IsIdentifier(id) && OccursAt(s, id, e)
    ensures NoSites(MemberSites(s, id), e + 1, e + |id|) && !MemberSite(s, id, e + |id|)
  {
    OccursWord(s, id, e);
    forall k | e < k <= e + |id| ensures !MemberSite(s, id, k) {
      assert IsWordChar(s[k - 1]);
    }
  }

  function NoMemberSite(s: string, id: string): nat -> bool {
    (i: nat) => !MemberSite(s, id, i)
  }

  /** Each step of the member pass inserts the qualifier before the one use it spans. */
  lemma MemberStepInserts(s: string, id: string, scope: string, i: nat)
    requires IsIdentifier(id) && i < |s| && !MemberSite(s, id, i)
    ensures SubStepInserts(MemberAt(id), s, i, Qualify(scope), MemberSites(s, id), scope + ".", NoMemberSite(s, id))
  {
    if MatchAt(MemberAt(id), s, i).Some? {
      var site := MemberSites(s, id);
      var e := SpanEnd(s, i, IsLead);
      LeadRunNoSites(s, id, i, e);
      NoSitesJoin(site, i, i + 1, e);
      WordNoSites(s, id, e);
      assert s[e..e + |id|] == id;
      assert site(e);
    } else {
      MemberMatchesBefore(s, id, i);
    }
  }

  /** The member pattern qualifies exactly the unqualified uses of `id`. */
  lemma MemberPass(s: string, id: string, scope: string)
    requires IsIdentifier(id)
    ensures Sub(MemberAt(id), s, Qualify(scope)) == InsertFrom(s, 0, MemberSites(s, id), scope + ".")
  {
    var good := NoMemberSite(s, id);
    forall k: nat | k < |s| && good(k)
      ensures SubStepInserts(MemberAt(id), s, k, Qualify(scope), MemberSites(s, id), scope + ".", good)
    {
      MemberStepInserts(s, id, scope, k);
    }
    SubInsertFrom(MemberAt(id), s, 0, Qualify(scope), MemberSites(s, id), scope + ".", good);
  }

  // ---------------------------------------------------------------------------
  // `(\bcase\s+)\b(id\s*:)` replaced by `\1scope.\2`

  function CaseMatch(id: string, s: string, i: nat): Option<Span<Qualified>> {
    if Boundary(s, i) && CaseWordAt(s, i) then
      var w := SpacesEnd(s, i + 4);
      if i + 4 < w && Boundary(s, w) && OccursAt(s, id, w) then
        var c := SpacesEnd(s, w + |id|);
        if c < |s| && s[c] == ':' then Some(Span(c + 1, Qualified(s[i..w], s[w..c + 1])))
        else None
      else None
    else None
  }

  function CaseAt(id: string): Matcher<Qualified> {
    (s: string, i: nat) => CaseMatch(id, s, i)
  }

  /** Every `case` label whose word `case` lies at or after `i` is still ahead. */
  predicate CasesAhead(s: string, id: string, i: nat) {
    forall k | i <= k <= |s| && CaseSite(s, id, k) :: CaseKeyword(s, k) >= i
  }

  /** A `case` label is where the pattern matches at its word `case`. */
  lemma CaseMatchesAtKeyword(s: string, id: string, k: nat)
    requires IsIdentifier(id) && k <= |s| && CaseSite(s, id, k)
    ensures MatchAt(CaseAt(id), s, CaseKeyword(s, k)).Some?
  {
    var j := SpanStart(s, k, IsSpace);
    SpanStartSpec(s, k, IsSpace);
    OccursWord(s, id, k);
    SpanEndUnique(s, j, IsSpace, k);
    SpacesEndSpan(s, j);
  }

  /** No character of a `case` label before the name is a colon. */
  lemma CaseLabelNoColon(s: string, id: string, k: nat)
    requires k <= |s|
    ensures CaseSite(s, id, k) ==> forall m | CaseKeyword(s, k) <= m < k :: s[m] != ':'
  {
    if CaseSite(s, id, k) {
      var j := SpanStart(s, k, IsSpace);
      SpanStartSpec(s, k, IsSpace);
      forall m | j - 4 <= m < k ensures s[m] != ':' {
        if m < j {
          assert m == j - 4 || m == j - 3 || m == j - 2 || m == j - 1;
        }
      }
    }
  }

  /** After a match ends at a colon, each label ahead has its word `case` ahead. */
  lemma CasesAheadOfColon(s: string, id: string, c: nat)
    requires c < |s| && s[c] == ':'
    ensures CasesAhead(s, id, c + 1)
  {
    forall k | c + 1 <= k <= |s| && CaseSite(s, id, k) ensures CaseKeyword(s, k) >= c + 1 {
      CaseLabelNoColon(s, id, k);
    }
  }

  /** No `case` label names start inside the word `case`. */
  lemma KeywordNoCaseSites(s: string, id: string, i: nat)
    requires CaseWordAt(s, i)
    ensures NoSites(CaseSites(s, id), i + 1, i + 5)
  {
    forall k | i < k <= i + 4 ensures !CaseSite(s, id, k) {
      assert k - 1 == i || k - 1 == i + 1 || k - 1 == i + 2 || k - 1 == i + 3;
      SpanStartUnique(s, k, IsSpace, k);
    }
  }

  /** No `case` label name starts at a character that is not a word character. */
  lemma NonWordNoCaseSites(s: string, id: string, a: nat, b: nat)
    requires IsIdentifier(id) && a <= b <= |s|
    requires forall m | a <= m < b :: !IsWordChar(s[m])
    ensures NoSites(CaseSites(s, id), a, b)
  {
    forall k | a <= k < b ensures !CaseSite(s, id, k) {
      OccursWord(s, id, k);
    }
  }

  /** No `case` label name starts inside a run of spaces. */
  lemma SpacesNoCaseSites(s: string, id: string, a: nat, from: nat)
    requires IsIdentifier(id) && a <= from && a <= |s|
    ensures NoSites(CaseSites(s, id), from, SpacesEnd(s, a))
  {
    SpacesEndSpan(s, a);
    if from <= SpacesEnd(s, a) {
      NonWordNoCaseSites(s, id, from, SpacesEnd(s, a));
    }
  }

  /** No `case` label name starts inside or right after a word. */
  lemma WordNoCaseSites(s: string, id: string, w: nat)
    requires IsIdentifier(id) && OccursAt(s, id, w)
    ensures NoSites(CaseSites(s, id), w + 1, w + |id| + 1)
  {
    OccursWord(s, id, w);
    forall k | w < k <= w + |id| ensures !CaseSite(s, id, k) {
      SpanStartUnique(s, k, IsSpace, k);
    }
  }

  /** Where a `case` match names `id`, there is a `case` label. */
  lemma CaseMatchSite(s: string, id: string, i: nat, w: nat, c: nat)
    requires CaseWordAt(s, i) && Boundary(s, i) && w == SpacesEnd(s, i + 4) && i + 4 < w
    requires Boundary(s, w) && OccursAt(s, id, w)
    requires c == SpacesEnd(s, w + |id|) && c < |s| && s[c] == ':'
    ensures CaseSite(s, id, w)
  {
    SpacesEndSpan(s, i + 4);
    SpanStartUnique(s, SpacesEnd(s, i + 4), IsSpace, i + 4);
  }

  /** Where a `case` match puts its spaces and its colon. */
  lemma CaseMatchShape(s: string, id: string, i: nat)
    requires MatchAt(CaseAt(id), s, i).Some?
    ensures var w := SpacesEnd(s, i + 4);
      var c := SpacesEnd(s, w + |id|);
      i + 4 < w && w + |id| <= c < |s| && s[c] == ':'
  {
  }

  /** The words a `case` match reads. */
  lemma CaseMatchWords(s: string, id: string, i: nat)
    requires MatchAt(CaseAt(id), s, i).Some?
    ensures OccursAt(s, id, SpacesEnd(s, i + 4)) && CaseWordAt(s, i)
    ensures Boundary(s, i) && Boundary(s, SpacesEnd(s, i + 4))
  {
  }

  /** What a `case` match captures. */
  lemma CaseMatchGroups(s: string, id: string, i: nat)
    requires MatchAt(CaseAt(id), s, i).Some?
    ensures var w := SpacesEnd(s, i + 4);
      var c := SpacesEnd(s, w + |id|);
      w + |id| <= c < |s| && MatchAt(CaseAt(id), s, i).value == Span(c + 1, Qualified(s[i..w], s[w..c + 1]))
  {
  }

  /** The positions a `case` match covers hold one site: where the name starts. */
  lemma CaseMatchSites(s: string, id: string, i: nat, w: nat, c: nat)
    requires IsIdentifier(id) && !CaseSite(s, id, i)
    requires CaseWordAt(s, i) && Boundary(s, i) && w == SpacesEnd(s, i + 4) && i + 4 < w
    requires Boundary(s, w) && OccursAt(s, id, w)
    requires c == SpacesEnd(s, w + |id|) && c < |s| && s[c] == ':'
    ensures NoSites(CaseSites(s, id), i, w) && CaseSites(s, id)(w)
    ensures NoSites(CaseSites(s, id), w + 1, c + 1)
  {
    var site := CaseSites(s, id);
    KeywordNoCaseSites(s, id, i);
    SpacesNoCaseSites(s, id, i + 4, i + 5);
    NoSitesJoin(site, i, i + 1, i + 5);
    NoSitesJoin(site, i, i + 5, w);
    WordNoCaseSites(s, id, w);
    if w + |id| < c {
      SpacesNoCaseSites(s, id, w + |id|, w + |id| + 1);
      NonWordNoCaseSites(s, id, c, c + 1);
      NoSitesJoin(site, w + 1, w + |id| + 1, c);
      NoSitesJoin(site, w + 1, c, c + 1);
    }
    CaseMatchSite(s, id, i, w, c);
  }

  /** Where the `case` pattern does not match, no later label has its keyword there. */
  lemma CasesAheadStep(s: string, id: string, i: nat)
    requires IsIdentifier(id) && i < |s| && CasesAhead(s, id, i) && MatchAt(CaseAt(id), s, i).None?
    ensures CasesAhead(s, id, i + 1) && !CaseSite(s, id, i)
  {
    forall k | i + 1 <= k <= |s| && CaseSite(s, id, k) ensures CaseKeyword(s, k) >= i + 1 {
      CaseMatchesAtKeyword(s, id, k);
    }
  }

  function CasesAheadFrom(s: string, id: string): nat -> bool {
    (i: nat) => CasesAhead(s, id, i)
  }

  /** Each step of the `case` pass inserts the qualifier before the one label it spans. */
  lemma CaseStepInserts(s: string, id: string, scope: string, i: nat)
    requires IsIdentifier(id) && i < |s| && CasesAhead(s, id, i)
    ensures SubStepInserts(CaseAt(id), s, i, Qualify(scope), CaseSites(s, id), scope + ".", CasesAheadFrom(s, id))
  {
    if MatchAt(CaseAt(id), s, i).Some? {
      var w := SpacesEnd(s, i + 4);
      var c := SpacesEnd(s, w + |id|);
      CaseMatchShape(s, id, i);
      CaseMatchWords(s, id, i);
      CaseMatchGroups(s, id, i);
      assert !CaseSite(s, id, i);
      CaseMatchSites(s, id, i, w, c);
      CasesAheadOfColon(s, id, c);
      assert CaseSites(s, id)(w);
    } else {
      CasesAheadStep(s, id, i);
    }
  }

  /** The `case` pattern qualifies exactly the `case` labels naming `id`. */
  lemma CasePass(s: string, id: string, scope: string)
    requires IsIdentifier(id)
    ensures Sub(CaseAt(id), s, Qualify(scope)) == InsertFrom(s, 0, CaseSites(s, id), scope + ".")
  {
    var good := CasesAheadFrom(s, id);
    forall k: nat | k < |s| && good(k)
      ensures SubStepInserts(CaseAt(id), s, k, Qualify(scope), CaseSites(s, id), scope + ".", good)
    {
      CaseStepInserts(s, id, scope, k);
    }
    SubInsertFrom(CaseAt(id), s, 0, Qualify(scope), CaseSites(s, id), scope + ".", good);
  }

  // ---------------------------------------------------------------------------
  // The whole of `scopeMembers`

  /** The members `funcContent` uses, each once, in the order of first use; a name the
      body declares as a local variable is not a member there. */
  function MemberIdentifiers(memberDeclarations: seq<string>, funcContent: string): seq<string> {
    var members := Excluded(memberDeclarations, FindLocalDeclarations(funcContent));
    FirstOccurrences(Selected(FindAll(IdentifierAt, funcContent), members))
  }

  /** Both substitutions for one identifier. */
  function ScopeIdentifier(s: string, id: string, scope: string): string {
    Sub(CaseAt(id), Sub(MemberAt(id), s, Qualify(scope)), Qualify(scope))
  }

  /** The substitutions for `ids` in turn. */
  function ScopeAll(s: string, ids: seq<string>, scope: string): string {
    if |ids| == 0 then s
    else ScopeIdentifier(ScopeAll(s, ids[..|ids| - 1], scope), ids[|ids| - 1], scope)
  }

  function Scoped(memberDeclarations: seq<string>, funcContent: string, scope: string): string {
    ScopeAll(funcContent, MemberIdentifiers(memberDeclarations, funcContent), scope)
  }

  /** One more identifier seen by the first loop of `scopeMembers`. */
  lemma SelectStep(seen: seq<string>, x: string, members: seq<string>)
    ensures FirstOccurrences(Selected(seen + [x], members))
         == FirstOccurrences(Selected(seen, members))
            + (if x in members && x !in FirstOccurrences(Selected(seen, members)) then [x] else [])
  {
    var l := Selected(seen, members);
    SelectedConcat(seen, [x], members);
    assert Selected([x], members) == if x in members then [x] else [];
    FirstOccurrencesSpec(l);
    if x in members {
      FirstOccurrencesSnoc(l, x);
    } else {
      assert l + [] == l;
    }
  }

  lemma ScopeAllSnoc(s: string, ids: seq<string>, q: nat, scope: string)
    requires q < |ids|
    ensures ScopeAll(s, ids[..q + 1], scope) == ScopeIdentifier(ScopeAll(s, ids[..q], scope), ids[q], scope)
  {
    assert ids[..q + 1][..q] == ids[..q];
  }

  /** The first loop of `scopeMembers`: the members among `identifiers`, each once, in
      the order they are first found. */
  method SelectMembers(identifiers: seq<string>, members: seq<string>) returns (memberIdentifiers: seq<string>)
    ensures memberIdentifiers == FirstOccurrences(Selected(identifiers, members))
  {
    memberIdentifiers := [];
    var p := 0;
    while p < |identifiers|
      invariant 0 <= p <= |identifiers|
      invariant memberIdentifiers == FirstOccurrences(Selected(identifiers[..p], members))
    {
      var identifier := identifiers[p];
      assert identifiers[..p + 1] == identifiers[..p] + [identifier];
      SelectStep(identifiers[..p], identifier, members);
      if identifier in members {
        if identifier !in memberIdentifiers {
          memberIdentifiers := memberIdentifiers + [identifier];
        }
      }
      p := p + 1;
    }
    assert identifiers[..p] == identifiers;
  }

  /** `scopeMembers` (as2js.py:579-624). */
  method ScopeMembers(memberDeclarations: seq<string>, funcContent: string, scope: string)
    returns (scoped: string)
    ensures scoped == Scoped(memberDeclarations, funcContent, scope)
  {
    scoped := funcContent;
    var localDeclarations := FindLocalDeclarations(funcContent);
    var members := Exclude(memberDeclarations, localDeclarations);
    var identifiers := FindAll(IdentifierAt, funcContent);
    var memberIdentifiers := SelectMembers(identifiers, members);
    var q := 0;
    while q < |memberIdentifiers|
      invariant 0 <= q <= |memberIdentifiers|
      invariant scoped == ScopeAll(funcContent, memberIdentifiers[..q], scope)
    {
      var identifier := memberIdentifiers[q];
      ghost var before := scoped;
      scoped := Sub(MemberAt(identifier), scoped, Qualify(scope));
      scoped := Sub(CaseAt(identifier), scoped, Qualify(scope));
      assert scoped == ScopeIdentifier(before, identifier, scope);
      ScopeAllSnoc(funcContent, memberIdentifiers, q, scope);
      q := q + 1;
    }
    assert memberIdentifiers[..q] == memberIdentifiers;
  }

  // ---------------------------------------------------------------------------
  // Properties

  /** Each identifier scoped is a declared member used in the body, a word, and not a
      local variable of the body; each is scoped once. */
  lemma MemberIdentifiersSpec(memberDeclarations: seq<string>, funcContent: string)
    ensures var ids := MemberIdentifiers(memberDeclarations, funcContent);
      NoDuplicates(ids)
      && forall x :: x in ids <==>
           x in FindAll(IdentifierAt, funcContent) && x in memberDeclarations
           && x !in FindLocalDeclarations(funcContent)
    ensures forall x | x in MemberIdentifiers(memberDeclarations, funcContent) :: IsIdentifier(x)
  {
    var members := Excluded(memberDeclarations, FindLocalDeclarations(funcContent));
    var found := FindAll(IdentifierAt, funcContent);
    ExcludedMembers(memberDeclarations, FindLocalDeclarations(funcContent));
    SelectedMembers(found, members);
    FirstOccurrencesSpec(Selected(found, members));
    forall x | x in MemberIdentifiers(memberDeclarations, funcContent) ensures IsIdentifier(x) {
      IdentifiersAreWords(funcContent, x);
    }
  }

  /** A body that uses no member is returned as it is. */
  lemma ScopedUnchanged(memberDeclarations: seq<string>, funcContent: string, scope: string)
    requires forall x | x in FindAll(IdentifierAt, funcContent) :: x !in memberDeclarations
    ensures Scoped(memberDeclarations, funcContent, scope) == funcContent
  {
    var members := Excluded(memberDeclarations, FindLocalDeclarations(funcContent));
    ExcludedMembers(memberDeclarations, FindLocalDeclarations(funcContent));
    SelectedNone(FindAll(IdentifierAt, funcContent), members);
  }

  /** For one member, both substitutions together insert the scope at the unqualified
      uses and then at the `case` labels. */
  lemma ScopeIdentifierInserts(s: string, id: string, scope: string)
    requires IsIdentifier(id)
    ensures var t := InsertFrom(s, 0, MemberSites(s, id), scope + ".");
      ScopeIdentifier(s, id, scope) == InsertFrom(t, 0, CaseSites(t, id), scope + ".")
  {
    MemberPass(s, id, scope);
    CasePass(Sub(MemberAt(id), s, Qualify(scope)), id, scope);
  }

  /** The scope inserted at the sites of each identifier in turn: first where it is used
      unqualified, then at its `case` labels, each pass on the text the previous left. */
  function ScopedAtSites(s: string, ids: seq<string>, scope: string): string {
    if |ids| == 0 then s
    else
      var t := ScopedAtSites(s, ids[..|ids| - 1], scope);
      var id := ids[|ids| - 1];
      var u := InsertFrom(t, 0, MemberSites(t, id), scope + ".");
      InsertFrom(u, 0, CaseSites(u, id), scope + ".")
  }

  /** Scoping a sequence of identifiers is inserting the scope at their sites in turn. */
  lemma {:induction false} ScopeAllAtSites(s: string, ids: seq<string>, scope: string)
    requires forall k | 0 <= k < |ids| :: IsIdentifier(ids[k])
    ensures ScopeAll(s, ids, scope) == ScopedAtSites(s, ids, scope)
    decreases |ids|
  {
    if |ids| > 0 {
      ScopeAllAtSites(s, ids[..|ids| - 1], scope);
      ScopeIdentifierInserts(ScopeAll(s, ids[..|ids| - 1], scope), ids[|ids| - 1], scope);
    }
  }

  /** `scopeMembers` inserts the scope at the sites of every member the body uses, one
      member after the other in the order of first use. */
  lemma ScopedAtMemberSites(memberDeclarations: seq<string>, funcContent: string, scope: string)
    ensures Scoped(memberDeclarations, funcContent, scope)
         == ScopedAtSites(funcContent, MemberIdentifiers(memberDeclarations, funcContent), scope)
  {
    var ids := MemberIdentifiers(memberDeclarations, funcContent);
    MemberIdentifiersSpec(memberDeclarations, funcContent);
    assert forall k | 0 <= k < |ids| :: ids[k] in ids;
    ScopeAllAtSites(funcContent, ids, scope);
  }
}
