/** The search discipline shared by Python's `re.sub`, `re.findall` and `re.split`:
    the text is scanned from left to right, the match that starts leftmost is taken,
    and the search resumes where that match ended. A fixed pattern is given here as a
    matcher: the match, if any, that the pattern makes when it is tried at one
    position of the whole text (so that a pattern may look behind that position). */
module Matching {
  import opened Text

  datatype Option<T> = None | Some(value: T)

  /** A match made at some position: where it ends and what its groups captured. */
  datatype Span<T> = Span(end: nat, groups: T)

  /** One match found by a scan: the unmatched text before it, the text it matched,
      and its groups. */
  datatype Hit<T> = Hit(gap: string, text: string, groups: T)

  /** A scanned text: its matches in order, then the text after the last match. */
  datatype Scan<T> = Scan(hits: seq<Hit<T>>, tail: string)

  type Matcher<T> = (string, nat) -> Option<Span<T>>

  /** The match `m` makes at `i`, kept only when it is non-empty and inside `s`.
      None of the converter's patterns can match the empty string. */
  function MatchAt<T>(m: Matcher<T>, s: string, i: nat): (r: Option<Span<T>>)
    ensures r.Some? ==> i < r.value.end <= |s|
    ensures r.Some? ==> r == m(s, i)
  {
    var o := m(s, i);
    if o.Some? && i < o.value.end <= |s| then o else None
  }

  function FlattenHits<T>(hs: seq<Hit<T>>): string {
    if |hs| == 0 then "" else hs[0].gap + hs[0].text + FlattenHits(hs[1..])
  }

  /** The text a scan was made of. */
  function Flatten<T>(r: Scan<T>): string {
    FlattenHits(r.hits) + r.tail
  }

  /** One unmatched character in front of a scan. */
  function Prepend<T>(c: char, r: Scan<T>): (p: Scan<T>)
    ensures Flatten(p) == [c] + Flatten(r)
    ensures |p.hits| == |r.hits|
    ensures forall k | 0 <= k < |r.hits| :: p.hits[k].groups == r.hits[k].groups
    ensures forall k | 0 < k < |r.hits| :: p.hits[k] == r.hits[k]
    ensures |r.hits| > 0 ==> p.hits[0].gap == [c] + r.hits[0].gap
    ensures |r.hits| == 0 ==> p.tail == [c] + r.tail
    ensures |r.hits| > 0 ==> p.tail == r.tail
  {
    if |r.hits| == 0 then Scan([], [c] + r.tail)
    else
      var h := r.hits[0];
      var p := Scan([Hit([c] + h.gap, h.text, h.groups)] + r.hits[1..], r.tail);
      assert p.hits[1..] == r.hits[1..];
      p
  }

  /** The leftmost, non-overlapping matches of `m` in `s` from position `i` on. */
  function ScanFrom<T>(m: Matcher<T>, s: string, i: nat): (r: Scan<T>)
    requires i <= |s|
    ensures Flatten(r) == s[i..]
    decreases |s| - i
  {
    if i == |s| then Scan([], "")
    else match MatchAt(m, s, i)
      case Some(sp) =>
        var rest := ScanFrom(m, s, sp.end);
        var r := Scan([Hit("", s[i..sp.end], sp.groups)] + rest.hits, rest.tail);
        assert r.hits[1..] == rest.hits;
        assert s[i..] == s[i..sp.end] + s[sp.end..];
        r
      case None =>
        var rest := ScanFrom(m, s, i + 1);
        assert s[i..] == [s[i]] + s[i + 1..];
        Prepend(s[i], rest)
  }

  function Render<T>(hs: seq<Hit<T>>, repl: T -> string): string {
    if |hs| == 0 then "" else hs[0].gap + repl(hs[0].groups) + Render(hs[1..], repl)
  }

  /** `re.sub` from position `i` on: every match replaced by `repl` of its groups. */
  function SubFrom<T>(m: Matcher<T>, s: string, i: nat, repl: T -> string): string
    requires i <= |s|
    decreases |s| - i
  {
    if i == |s| then ""
    else match MatchAt(m, s, i)
      case Some(sp) => repl(sp.groups) + SubFrom(m, s, sp.end, repl)
      case None => [s[i]] + SubFrom(m, s, i + 1, repl)
  }

  function Sub<T>(m: Matcher<T>, s: string, repl: T -> string): string {
    SubFrom(m, s, 0, repl)
  }

  function GroupsOf<T>(hs: seq<Hit<T>>): (gs: seq<T>)
    ensures |gs| == |hs|
    ensures forall k | 0 <= k < |hs| :: gs[k] == hs[k].groups
  {
    if |hs| == 0 then [] else [hs[0].groups] + GroupsOf(hs[1..])
  }

  /** `re.findall` from position `i` on: the groups of every match, in order. */
  function FindAllFrom<T>(m: Matcher<T>, s: string, i: nat): seq<T>
    requires i <= |s|
  {
    GroupsOf(ScanFrom(m, s, i).hits)
  }

  function FindAll<T>(m: Matcher<T>, s: string): seq<T> {
    FindAllFrom(m, s, 0)
  }

  function SplitHits<T>(hs: seq<Hit<T>>, parts: T -> seq<string>): seq<string> {
    if |hs| == 0 then [] else [hs[0].gap] + parts(hs[0].groups) + SplitHits(hs[1..], parts)
  }

  /** `re.split` on a pattern with groups: the text between matches, each followed by
      the groups of the match after it (`parts` lists them, an unmatched group as ""). */
  function Split<T>(m: Matcher<T>, s: string, parts: T -> seq<string>): seq<string> {
    var r := ScanFrom(m, s, 0);
    SplitHits(r.hits, parts) + [r.tail]
  }

  // ---------------------------------------------------------------------------
  // Properties of the scan

  lemma RenderPrepend<T>(c: char, r: Scan<T>, repl: T -> string)
    ensures Render(Prepend(c, r).hits, repl) + Prepend(c, r).tail
         == [c] + (Render(r.hits, repl) + r.tail)
  {
    var p := Prepend(c, r);
    if |r.hits| > 0 {
      assert p.hits[1..] == r.hits[1..];
    }
  }

  lemma RenderCons<T>(h: Hit<T>, hs: seq<Hit<T>>, repl: T -> string)
    ensures Render([h] + hs, repl) == h.gap + repl(h.groups) + Render(hs, repl)
  {
    assert ([h] + hs)[1..] == hs;
  }

  /** One step of the scan where the pattern matches. */
  lemma ScanFromMatch<T>(m: Matcher<T>, s: string, i: nat)
    requires i < |s| && MatchAt(m, s, i).Some?
    ensures var sp := MatchAt(m, s, i).value;
      ScanFrom(m, s, i).hits == [Hit("", s[i..sp.end], sp.groups)] + ScanFrom(m, s, sp.end).hits
      && ScanFrom(m, s, i).tail == ScanFrom(m, s, sp.end).tail
  {
  }

  /** `re.sub` renders the scan that `re.findall` and `re.split` read: the text between
      matches is kept and each match is replaced. */
  lemma {:induction false} SubFromRenders<T>(m: Matcher<T>, s: string, i: nat, repl: T -> string)
    requires i <= |s|
    ensures SubFrom(m, s, i, repl) == Render(ScanFrom(m, s, i).hits, repl) + ScanFrom(m, s, i).tail
    decreases |s| - i
  {
    if i < |s| {
      SubFromUnfold(m, s, i, repl);
      match MatchAt(m, s, i)
      case Some(sp) =>
        SubFromRenders(m, s, sp.end, repl);
        var rest := ScanFrom(m, s, sp.end);
        ScanFromMatch(m, s, i);
        RenderCons(Hit("", s[i..sp.end], sp.groups), rest.hits, repl);
        assert "" + repl(sp.groups) == repl(sp.groups);
        Assoc(repl(sp.groups), Render(rest.hits, repl), rest.tail);
      case None =>
        SubFromRenders(m, s, i + 1, repl);
        RenderPrepend(s[i], ScanFrom(m, s, i + 1), repl);
    }
  }

  /** One step of `re.sub`. */
  lemma SubFromUnfold<T>(m: Matcher<T>, s: string, i: nat, repl: T -> string)
    requires i < |s|
    ensures SubFrom(m, s, i, repl)
         == match MatchAt(m, s, i)
              case Some(sp) => repl(sp.groups) + SubFrom(m, s, sp.end, repl)
              case None => [s[i]] + SubFrom(m, s, i + 1, repl)
  {
  }

  /** One step of `re.findall`. */
  lemma FindAllFromUnfold<T>(m: Matcher<T>, s: string, i: nat)
    requires i < |s|
    ensures FindAllFrom(m, s, i)
         == match MatchAt(m, s, i)
              case Some(sp) => [sp.groups] + FindAllFrom(m, s, sp.end)
              case None => FindAllFrom(m, s, i + 1)
  {
    match MatchAt(m, s, i)
    case Some(sp) =>
      var r := ScanFrom(m, s, i);
      assert r.hits[1..] == ScanFrom(m, s, sp.end).hits;
    case None =>
  }

  /** Where the pattern does not match, `re.sub` copies the character. */
  lemma SubFromCopy<T>(m: Matcher<T>, s: string, i: nat, repl: T -> string)
    requires i < |s| && MatchAt(m, s, i).None?
    ensures SubFrom(m, s, i, repl) == [s[i]] + SubFrom(m, s, i + 1, repl)
  {
    SubFromUnfold(m, s, i, repl);
  }

  /** A stretch in which the pattern matches nowhere is copied by `re.sub`. */
  lemma {:induction false} SubFromSkip<T>(m: Matcher<T>, s: string, i: nat, j: nat, repl: T -> string)
    requires i <= j <= |s|
    requires forall k | i <= k < j :: MatchAt(m, s, k).None?
    ensures SubFrom(m, s, i, repl) == s[i..j] + SubFrom(m, s, j, repl)
    decreases j - i
  {
    if i < j {
      SubFromCopy(m, s, i, repl);
      SubFromSkip(m, s, i + 1, j, repl);
      Assoc([s[i]], s[i + 1..j], SubFrom(m, s, j, repl));
      assert [s[i]] + s[i + 1..j] == s[i..j];
    }
  }

  /** `re.sub` from `j` copies the text up to the first match, at `i`, and puts the
      replacement of that match in its place. */
  lemma SubFirstMatch<T>(m: Matcher<T>, s: string, j: nat, i: nat, repl: T -> string)
    requires j <= i < |s|
    requires forall k | j <= k < i :: MatchAt(m, s, k).None?
    requires MatchAt(m, s, i).Some?
    ensures var sp := MatchAt(m, s, i).value;
      SubFrom(m, s, j, repl) == s[j..i] + repl(sp.groups) + SubFrom(m, s, sp.end, repl)
  {
    var sp := MatchAt(m, s, i).value;
    SubFromSkip(m, s, j, i, repl);
    SubFromUnfold(m, s, i, repl);
    Assoc(s[j..i], repl(sp.groups), SubFrom(m, s, sp.end, repl));
  }

  /** A text in which the pattern matches nowhere is left as it is by `re.sub`. */
  lemma {:induction false} SubNoMatch<T>(m: Matcher<T>, s: string, i: nat, repl: T -> string)
    requires i <= |s|
    requires forall k | i <= k < |s| :: m(s, k).None?
    ensures SubFrom(m, s, i, repl) == s[i..]
    decreases |s| - i
  {
    if i < |s| {
      SubFromUnfold(m, s, i, repl);
      SubNoMatch(m, s, i + 1, repl);
      assert s[i..] == [s[i]] + s[i + 1..];
    }
  }

  /** Where `re.findall` finds nothing, `re.sub` returns the text as it is. */
  lemma SubNothingFound<T>(m: Matcher<T>, s: string, repl: T -> string)
    requires FindAll(m, s) == []
    ensures Sub(m, s, repl) == s
  {
    FindAllEmpty(m, s, 0);
    SubFromSkip(m, s, 0, |s|, repl);
    assert s[0..|s|] == s;
  }

  /** The position of the match whose groups `re.findall` returned. */
  lemma {:induction false} FoundAt<T>(m: Matcher<T>, s: string, i: nat, g: T) returns (k: nat)
    requires i <= |s| && g in FindAllFrom(m, s, i)
    ensures i <= k < |s| && MatchAt(m, s, k).Some? && MatchAt(m, s, k).value.groups == g
    decreases |s| - i
  {
    FindAllFromUnfold(m, s, i);
    match MatchAt(m, s, i)
    case Some(sp) =>
      if g == sp.groups {
        k := i;
      } else {
        k := FoundAt(m, s, sp.end, g);
      }
    case None =>
      k := FoundAt(m, s, i + 1, g);
  }

  /** Each item `re.findall` returns holds the groups of a match the pattern makes. */
  lemma {:induction false} FindAllGroups<T>(m: Matcher<T>, s: string, i: nat)
    requires i <= |s|
    ensures forall g | g in FindAllFrom(m, s, i) ::
      exists k | i <= k < |s| :: MatchAt(m, s, k).Some? && MatchAt(m, s, k).value.groups == g
    decreases |s| - i
  {
    if i < |s| {
      FindAllFromUnfold(m, s, i);
      match MatchAt(m, s, i)
      case Some(sp) =>
        FindAllGroups(m, s, sp.end);
      case None =>
        FindAllGroups(m, s, i + 1);
    }
  }

  /** Where no earlier match reaches over `k`, the scan reaches `k`, so the match
      there is among those `re.findall` returns. */
  lemma {:induction false} FindAllEvery<T>(m: Matcher<T>, s: string, i: nat, k: nat)
    requires i <= k < |s| && MatchAt(m, s, k).Some?
    requires forall p | i <= p < k && MatchAt(m, s, p).Some? :: MatchAt(m, s, p).value.end <= k
    ensures MatchAt(m, s, k).value.groups in FindAllFrom(m, s, i)
    decreases k - i
  {
    if i == k {
      FindAllFromUnfold(m, s, k);
    } else {
      var next := if MatchAt(m, s, i).Some? then MatchAt(m, s, i).value.end else i + 1;
      FindAllFromNext(m, s, i);
      FindAllEvery(m, s, next, k);
    }
  }

  /** What `re.findall` finds after the first step from `i` it also finds from `i`. */
  lemma FindAllFromNext<T>(m: Matcher<T>, s: string, i: nat)
    requires i < |s|
    ensures var next := if MatchAt(m, s, i).Some? then MatchAt(m, s, i).value.end else i + 1;
      forall g | g in FindAllFrom(m, s, next) :: g in FindAllFrom(m, s, i)
  {
    FindAllFromUnfold(m, s, i);
  }

  /** `re.findall` finds nothing exactly when the pattern matches nowhere. */
  lemma {:induction false} FindAllEmpty<T>(m: Matcher<T>, s: string, i: nat)
    requires i <= |s|
    ensures FindAllFrom(m, s, i) == [] <==> forall k | i <= k < |s| :: MatchAt(m, s, k).None?
    decreases |s| - i
  {
    if i < |s| {
      FindAllFromUnfold(m, s, i);
      FindAllEmpty(m, s, i + 1);
    }
  }

  /** Every replacement is shorter than the text it replaces. */
  predicate Shrinking<T>(m: Matcher<T>, s: string, repl: T -> string) {
    forall k | 0 <= k < |s| && MatchAt(m, s, k).Some? ::
      |repl(MatchAt(m, s, k).value.groups)| < MatchAt(m, s, k).value.end - k
  }

  /** Every replacement is longer than the text it replaces. */
  predicate Growing<T>(m: Matcher<T>, s: string, repl: T -> string) {
    forall k | 0 <= k < |s| && MatchAt(m, s, k).Some? ::
      |repl(MatchAt(m, s, k).value.groups)| > MatchAt(m, s, k).value.end - k
  }

  lemma {:induction false} SubFromShrinks<T>(m: Matcher<T>, s: string, i: nat, repl: T -> string)
    requires i <= |s| && Shrinking(m, s, repl)
    ensures |SubFrom(m, s, i, repl)| <= |s| - i
    ensures |SubFrom(m, s, i, repl)| == |s| - i ==> forall k | i <= k < |s| :: MatchAt(m, s, k).None?
    decreases |s| - i
  {
    if i < |s| {
      SubFromUnfold(m, s, i, repl);
      match MatchAt(m, s, i)
      case Some(sp) =>
        SubFromShrinks(m, s, sp.end, repl);
      case None =>
        SubFromShrinks(m, s, i + 1, repl);
    }
  }

  lemma {:induction false} SubFromGrows<T>(m: Matcher<T>, s: string, i: nat, repl: T -> string)
    requires i <= |s| && Growing(m, s, repl)
    ensures |SubFrom(m, s, i, repl)| >= |s| - i
    ensures |SubFrom(m, s, i, repl)| == |s| - i ==> forall k | i <= k < |s| :: MatchAt(m, s, k).None?
    decreases |s| - i
  {
    if i < |s| {
      SubFromUnfold(m, s, i, repl);
      match MatchAt(m, s, i)
      case Some(sp) =>
        SubFromGrows(m, s, sp.end, repl);
      case None =>
        SubFromGrows(m, s, i + 1, repl);
    }
  }

  /** Where every replacement is shorter than its match, `re.sub` shortens the text
      unless the pattern matches nowhere, and then leaves it as it is. */
  lemma SubShrinks<T>(m: Matcher<T>, s: string, repl: T -> string)
    requires Shrinking(m, s, repl)
    ensures |Sub(m, s, repl)| <= |s|
    ensures |Sub(m, s, repl)| == |s| <==> Sub(m, s, repl) == s
    ensures Sub(m, s, repl) == s <==> forall k | 0 <= k < |s| :: MatchAt(m, s, k).None?
  {
    SubFromShrinks(m, s, 0, repl);
    if forall k | 0 <= k < |s| :: MatchAt(m, s, k).None? {
      SubFromSkip(m, s, 0, |s|, repl);
      assert s[0..|s|] == s;
    }
  }

  /** Where every replacement is longer than its match, `re.sub` lengthens the text
      unless the pattern matches nowhere, and then leaves it as it is. */
  lemma SubGrows<T>(m: Matcher<T>, s: string, repl: T -> string)
    requires Growing(m, s, repl)
    ensures |Sub(m, s, repl)| >= |s|
    ensures |Sub(m, s, repl)| == |s| <==> Sub(m, s, repl) == s
    ensures Sub(m, s, repl) == s <==> forall k | 0 <= k < |s| :: MatchAt(m, s, k).None?
  {
    SubFromGrows(m, s, 0, repl);
    if forall k | 0 <= k < |s| :: MatchAt(m, s, k).None? {
      SubFromSkip(m, s, 0, |s|, repl);
      assert s[0..|s|] == s;
    }
  }

  /** No replacement is a prefix of the text from where its match starts, so the
      first replacement made shows up in the result. */
  predicate Departing<T>(m: Matcher<T>, s: string, repl: T -> string) {
    forall k | 0 <= k < |s| && MatchAt(m, s, k).Some? ::
      !IsPrefix(repl(MatchAt(m, s, k).value.groups), s[k..])
  }

  predicate IsPrefix(r: string, t: string) {
    |r| <= |t| && t[..|r|] == r
  }

  /** The first place from `j` on where the pattern matches. */
  lemma {:induction false} FirstMatch<T>(m: Matcher<T>, s: string, j: nat) returns (i: nat)
    requires j <= |s|
    requires exists k: nat :: j <= k < |s| && MatchAt(m, s, k).Some?
    ensures j <= i < |s| && MatchAt(m, s, i).Some?
    ensures forall k | j <= k < i :: MatchAt(m, s, k).None?
    decreases |s| - j
  {
    if MatchAt(m, s, j).Some? {
      i := j;
    } else {
      var k: nat :| j <= k < |s| && MatchAt(m, s, k).Some?;
      assert j + 1 <= k;
      i := FirstMatch(m, s, j + 1);
    }
  }

  /** Where no replacement repeats the text it stands for, `re.sub` leaves a text as
      it is exactly when the pattern matches nowhere in it. */
  lemma SubDeparts<T>(m: Matcher<T>, s: string, repl: T -> string)
    requires Departing(m, s, repl)
    ensures Sub(m, s, repl) == s <==> forall k | 0 <= k < |s| :: MatchAt(m, s, k).None?
  {
    if forall k | 0 <= k < |s| :: MatchAt(m, s, k).None? {
      SubFromSkip(m, s, 0, |s|, repl);
      assert s[0..|s|] == s;
    } else {
      var k :| 0 <= k < |s| && MatchAt(m, s, k).Some?;
      var i := FirstMatch(m, s, 0);
      var sp := MatchAt(m, s, i).value;
      SubFirstMatch(m, s, 0, i, repl);
      SubChanged(s, s[0..i], repl(sp.groups), SubFrom(m, s, sp.end, repl));
    }
  }

  /** A text with `b` after its first `|a|` characters, where `b` is not a prefix of
      what stands there, is not that text. */
  lemma SubChanged(s: string, a: string, b: string, c: string)
    requires |a| <= |s| && a == s[..|a|] && !IsPrefix(b, s[|a|..])
    ensures a + b + c != s
  {
    if |a + b + c| == |s| {
      assert (a + b + c)[|a|..|a| + |b|] == b;
      assert s[|a|..][..|b|] == s[|a|..|a| + |b|];
    }
  }
}
