/** String primitives of the Python runtime that the converter relies on:
    the character classes of its regular expressions, `str.replace`,
    `str.join`, `str.splitlines` and `str.lstrip`. */
module Text {

  /** `\w` of Python 2's `re` module (no UNICODE flag): ASCII letters, digits, underscore. */
  predicate IsWordChar(c: char) {
    ('a' <= c <= 'z') || ('A' <= c <= 'Z') || ('0' <= c <= '9') || c == '_'
  }

  /** `\s` of Python 2's `re` module (no UNICODE flag). */
  predicate IsSpace(c: char) {
    c == ' ' || c == '\t' || c == '\n' || c == '\r' || c == '\U{0B}' || c == '\U{0C}'
  }

  /** Whitespace as `unicode.isspace` and `unicode.lstrip` see it. */
  predicate IsUnicodeSpace(c: char) {
    IsSpace(c) || ('\U{1C}' <= c <= '\U{1F}') || c == '\U{85}' || c == '\U{A0}'
    || c == '\U{1680}' || c == '\U{180E}' || ('\U{2000}' <= c <= '\U{200A}')
    || c == '\U{2028}' || c == '\U{2029}' || c == '\U{202F}' || c == '\U{205F}'
    || c == '\U{3000}'
  }

  /** A character at which `unicode.splitlines` ends a line (`\r\n` counts once). */
  predicate IsLineBreak(c: char) {
    c == '\n' || c == '\r' || c == '\U{0B}' || c == '\U{0C}' || ('\U{1C}' <= c <= '\U{1E}')
    || c == '\U{85}' || c == '\U{2028}' || c == '\U{2029}'
  }

  /** A name as the `(\w+)` groups of the extraction patterns capture it. */
  predicate IsIdentifier(s: string) {
    |s| > 0 && forall k | 0 <= k < |s| :: IsWordChar(s[k])
  }

  predicate AllWord(s: string) {
    forall k | 0 <= k < |s| :: IsWordChar(s[k])
  }

  // ---------------------------------------------------------------------------
  // Occurrences

  predicate OccursAt(s: string, p: string, i: nat) {
    i + |p| <= |s| && s[i..i + |p|] == p
  }

  predicate Occurs(s: string, p: string) {
    exists i: nat | i <= |s| :: OccursAt(s, p, i)
  }

  /** No occurrence at `i + k` in `s` means none at `i` in the suffix from `k`. */
  lemma NotOccursShift(s: string, p: string, i: nat, k: nat)
    requires k <= |s|
    requires !OccursAt(s, p, i + k)
    ensures !OccursAt(s[k..], p, i)
  {
    if i + |p| <= |s[k..]| {
      assert s[k..][i..i + |p|] == s[i + k..i + k + |p|];
    }
  }

  lemma NotOccursInPrefix(s: string, p: string, i: nat, k: nat)
    requires k <= |s|
    requires !OccursAt(s, p, i)
    ensures !OccursAt(s[..k], p, i)
  {
    if i + |p| <= k {
      assert s[..k][i..i + |p|] == s[i..i + |p|];
    }
  }

  /** A suffix of a text without `p` is without `p`. */
  lemma AbsentSuffix(s: string, p: string, k: nat)
    requires k <= |s| && !Occurs(s, p)
    ensures !Occurs(s[k..], p)
  {
    forall i: nat | i <= |s[k..]| ensures !OccursAt(s[k..], p, i) {
      NotOccursShift(s, p, i, k);
    }
  }

  /** A prefix of a text without `p` is without `p`. */
  lemma AbsentPrefix(s: string, p: string, k: nat)
    requires k <= |s| && !Occurs(s, p)
    ensures !Occurs(s[..k], p)
  {
    forall i: nat | i <= |s[..k]| ensures !OccursAt(s[..k], p, i) {
      NotOccursInPrefix(s, p, i, k);
    }
  }

  /** `t` and `p` agree on every position both have. */
  predicate Compatible(t: string, p: string) {
    forall j | 0 <= j < |t| && j < |p| :: t[j] == p[j]
  }

  /** No proper, non-empty prefix of `t` is also a suffix of `t`, so two
      occurrences of `t` can never overlap. */
  predicate NoBorder(t: string) {
    forall k | 0 < k < |t| :: !Compatible(t[k..], t)
  }

  /** No occurrence of `p` can start strictly inside an occurrence of `t`
      and none can contain the first character of `t`. */
  predicate Unentangled(t: string, p: string) {
    |t| > 0 && t[0] !in p && forall k | 0 < k < |t| :: !Compatible(t[k..], p)
  }

  // ---------------------------------------------------------------------------
  // str.replace

  /** Python's `s.replace("", r)`: `r` before every character and at the end. */
  function InsertEverywhere(s: string, r: string): (o: string)
    ensures |o| == |s| + (|s| + 1) * |r|
  {
    if |s| == 0 then r else r + [s[0]] + InsertEverywhere(s[1..], r)
  }

  /** Python's `s.replace(p, r)`: every leftmost, non-overlapping occurrence of `p`
      replaced by `r`. */
  function ReplaceAll(s: string, p: string, r: string): string
    decreases |s|
  {
    if |p| == 0 then InsertEverywhere(s, r)
    else if |s| == 0 then ""
    else if |p| <= |s| && s[..|p|] == p then r + ReplaceAll(s[|p|..], p, r)
    else [s[0]] + ReplaceAll(s[1..], p, r)
  }

  /** A non-empty replacement keeps a text non-empty. */
  lemma ReplaceNonEmpty(s: string, p: string, r: string)
    requires |s| > 0 && |p| > 0 && |r| > 0
    ensures |ReplaceAll(s, p, r)| > 0
  {
  }

  lemma {:induction false} ReplaceAbsent(s: string, p: string, r: string)
    requires |p| > 0 && !Occurs(s, p)
    ensures ReplaceAll(s, p, r) == s
    decreases |s|
  {
    if |s| > 0 {
      assert !OccursAt(s, p, 0);
      AbsentSuffix(s, p, 1);
      ReplaceAbsent(s[1..], p, r);
      assert s == [s[0]] + s[1..];
    }
  }

  /** Replacing in a concatenation replaces in each part, provided no
      occurrence of the pattern straddles the seam. */
  lemma {:induction false} ReplaceConcat(a: string, b: string, p: string, r: string)
    requires |p| > 0
    requires forall i: nat | i < |a| < i + |p| :: !OccursAt(a + b, p, i)
    ensures ReplaceAll(a + b, p, r) == ReplaceAll(a, p, r) + ReplaceAll(b, p, r)
    decreases |a|
  {
    if |a| == 0 {
      assert a + b == b;
    } else if OccursAt(a + b, p, 0) {
      assert |p| <= |a|;
      assert (a + b)[..|p|] == a[..|p|];
      assert (a + b)[|p|..] == a[|p|..] + b;
      forall i: nat | i < |a[|p|..]| < i + |p| ensures !OccursAt(a[|p|..] + b, p, i) {
        NotOccursShift(a + b, p, i, |p|);
      }
      ReplaceConcat(a[|p|..], b, p, r);
    } else {
      assert (a + b)[1..] == a[1..] + b;
      if |p| <= |a| {
        assert (a + b)[..|p|] == a[..|p|];
      }
      forall i: nat | i < |a[1..]| < i + |p| ensures !OccursAt(a[1..] + b, p, i) {
        NotOccursShift(a + b, p, i, 1);
      }
      ReplaceConcat(a[1..], b, p, r);
    }
  }

  /** A one-character pattern never straddles a seam. */
  lemma ReplaceCharConcat(a: string, b: string, c: char, t: string)
    ensures ReplaceAll(a + b, [c], t) == ReplaceAll(a, [c], t) + ReplaceAll(b, [c], t)
  {
    ReplaceConcat(a, b, [c], t);
  }

  lemma ReplaceCharCons(x: char, s: string, c: char, t: string)
    ensures ReplaceAll([x] + s, [c], t) == (if x == c then t else [x]) + ReplaceAll(s, [c], t)
  {
    assert ([x] + s)[..1] == [x];
    assert ([x] + s)[1..] == s;
  }

  /** Replacement inside a text free of the pattern's characters changes nothing at a seam:
      a character that the pattern does not contain splits the replacement. */
  lemma ReplaceAroundChar(a: string, x: char, b: string, p: string, r: string)
    requires |p| > 0 && x !in p
    ensures ReplaceAll(a + [x] + b, p, r) == ReplaceAll(a, p, r) + [x] + ReplaceAll(b, p, r)
  {
    var w := a + ([x] + b);
    forall i: nat | i < |a| < i + |p| ensures !OccursAt(w, p, i) {
      if i + |p| <= |w| {
        assert w[i..i + |p|][|a| - i] == x;
      }
    }
    assert a + [x] + b == w;
    ReplaceConcat(a, [x] + b, p, r);
    assert ([x] + b)[1..] == b;
    if |p| <= |[x] + b| {
      assert ([x] + b)[..|p|][0] == x;
    }
  }

  /** Every character of the result comes from the input or from the replacement. */
  lemma {:induction false} ReplaceChars(s: string, p: string, r: string, ch: char)
    requires |p| > 0
    requires ch in ReplaceAll(s, p, r)
    ensures ch in s || ch in r
    decreases |s|
  {
    if |s| > 0 {
      if |p| <= |s| && s[..|p|] == p {
        if ch !in r {
          ReplaceChars(s[|p|..], p, r, ch);
          assert forall y | y in s[|p|..] :: y in s;
        }
      } else if ch != s[0] {
        ReplaceChars(s[1..], p, r, ch);
        assert forall y | y in s[1..] :: y in s;
      }
    }
  }

  lemma ReplaceRemovesChar(s: string, c: char, t: string)
    requires c !in t
    ensures c !in ReplaceAll(s, [c], t)
    decreases |s|
  {
    if |s| > 0 {
      ReplaceCharCons(s[0], s[1..], c, t);
      assert s == [s[0]] + s[1..];
      ReplaceRemovesChar(s[1..], c, t);
    }
  }

  /** A character in neither the input nor the replacement is not in the result. */
  lemma {:induction false} ReplaceKeepsFree(s: string, p: string, r: string, ch: char)
    requires |p| > 0 && ch !in s && ch !in r
    ensures ch !in ReplaceAll(s, p, r)
    decreases |s|
  {
    if |s| > 0 {
      if |p| <= |s| && s[..|p|] == p {
        assert forall y | y in s[|p|..] :: y in s;
        ReplaceKeepsFree(s[|p|..], p, r, ch);
      } else {
        assert forall y | y in s[1..] :: y in s;
        ReplaceKeepsFree(s[1..], p, r, ch);
      }
    }
  }

  lemma CharAbsent(s: string, c: char)
    requires c !in s
    ensures !Occurs(s, [c])
  {
    forall i: nat | i <= |s| ensures !OccursAt(s, [c], i) {
      if i + 1 <= |s| {
        assert s[i..i + 1] == [s[i]];
      }
    }
  }

  /** Two one-character replacements on distinct characters commute when neither
      replacement text contains the other character. */
  lemma {:induction false} ReplaceCharsCommute(s: string, a: char, ta: string, b: char, tb: string)
    requires a != b && a !in tb && b !in ta
    ensures ReplaceAll(ReplaceAll(s, [a], ta), [b], tb)
         == ReplaceAll(ReplaceAll(s, [b], tb), [a], ta)
    decreases |s|
  {
    if |s| > 0 {
      var x, t := s[0], s[1..];
      assert s == [x] + t;
      ReplaceCharCons(x, t, a, ta);
      ReplaceCharCons(x, t, b, tb);
      var xa := if x == a then ta else [x];
      var xb := if x == b then tb else [x];
      ReplaceCharConcat(xa, ReplaceAll(t, [a], ta), b, tb);
      ReplaceCharConcat(xb, ReplaceAll(t, [b], tb), a, ta);
      if x == a {
        CharAbsent(ta, b);
        ReplaceAbsent(ta, [b], tb);
        ReplaceCharCons(x, [], a, ta);
        assert ReplaceAll([x], [a], ta) == ta + ReplaceAll([], [a], ta);
      } else if x == b {
        CharAbsent(tb, a);
        ReplaceAbsent(tb, [a], ta);
        ReplaceCharCons(x, [], b, tb);
        assert ReplaceAll([x], [b], tb) == tb + ReplaceAll([], [b], tb);
      } else {
        ReplaceCharCons(x, [], a, ta);
        ReplaceCharCons(x, [], b, tb);
        assert [x] + [] == [x];
      }
      ReplaceCharsCommute(t, a, ta, b, tb);
    }
  }

  /** Replacing one character by one character maps the text character by character. */
  lemma {:induction false} ReplaceCharPointwise(s: string, a: char, b: char)
    ensures |ReplaceAll(s, [a], [b])| == |s|
    ensures forall k | 0 <= k < |s| :: ReplaceAll(s, [a], [b])[k] == if s[k] == a then b else s[k]
    decreases |s|
  {
    if |s| > 0 {
      ReplaceCharCons(s[0], s[1..], a, [b]);
      assert s == [s[0]] + s[1..];
      ReplaceCharPointwise(s[1..], a, b);
    }
  }

  /** Mapping one character to another commutes with contracting a token that holds
      neither of them. */
  lemma {:induction false} MapCommutesContract(z: string, a: char, b: char, t: string, c: char)
    requires |t| > 0 && a !in t && b !in t && a != c
    ensures ReplaceAll(ReplaceAll(z, t, [c]), [a], [b]) == ReplaceAll(ReplaceAll(z, [a], [b]), t, [c])
    decreases |z|
  {
    var mz := ReplaceAll(z, [a], [b]);
    ReplaceCharPointwise(z, a, b);
    if |z| > 0 {
      if |t| <= |z| && z[..|t|] == t {
        var rest := z[|t|..];
        ReplaceCharCons(c, ReplaceAll(rest, t, [c]), a, [b]);
        assert z == t + rest;
        ReplaceCharConcat(t, rest, a, [b]);
        CharAbsent(t, a);
        ReplaceAbsent(t, [a], [b]);
        assert mz[..|t|] == t && mz[|t|..] == ReplaceAll(rest, [a], [b]);
        MapCommutesContract(rest, a, b, t, c);
      } else {
        ReplaceCharCons(z[0], ReplaceAll(z[1..], t, [c]), a, [b]);
        assert z == [z[0]] + z[1..];
        ReplaceCharCons(z[0], z[1..], a, [b]);
        if |t| <= |z| {
          assert z[..|t|] != t;
          var j :| 0 <= j < |t| && z[..|t|][j] != t[j];
          assert mz[..|t|][j] != t[j];
        }
        assert mz[1..] == ReplaceAll(z[1..], [a], [b]);
        MapCommutesContract(z[1..], a, b, t, c);
      }
    }
  }

  /** A replacement shorter than the pattern never lengthens the text, and shortens it
      exactly when the pattern occurs. */
  lemma {:induction false} ReplaceShortens(s: string, p: string, r: string)
    requires |r| < |p|
    ensures |ReplaceAll(s, p, r)| <= |s|
    ensures Occurs(s, p) ==> |ReplaceAll(s, p, r)| < |s|
    ensures !Occurs(s, p) ==> ReplaceAll(s, p, r) == s
    decreases |s|
  {
    if !Occurs(s, p) {
      ReplaceAbsent(s, p, r);
    }
    if |s| > 0 {
      if |p| <= |s| && s[..|p|] == p {
        ReplaceShortens(s[|p|..], p, r);
      } else {
        ReplaceShortens(s[1..], p, r);
        if Occurs(s, p) {
          var i: nat :| i <= |s| && OccursAt(s, p, i);
          assert i > 0;
          assert s[1..][i - 1..i - 1 + |p|] == s[i..i + |p|];
          assert OccursAt(s[1..], p, i - 1);
        }
      }
    }
  }

  /** A text misses a pattern that holds a character the text lacks. */
  lemma AbsentByChar(s: string, p: string, x: char)
    requires x in p && x !in s
    ensures !Occurs(s, p)
  {
    forall i: nat | i <= |s| ensures !OccursAt(s, p, i) {
      if i + |p| <= |s| {
        assert forall y | y in s[i..i + |p|] :: y in s;
      }
    }
  }

  /** An occurrence in a concatenation starts in the first part or lies in the second. */
  lemma AbsentConcat(a: string, b: string, p: string)
    requires !Occurs(b, p)
    requires forall i: nat | i < |a| :: !OccursAt(a + b, p, i)
    ensures !Occurs(a + b, p)
  {
    forall i: nat | i <= |a + b| ensures !OccursAt(a + b, p, i) {
      if i >= |a| && i + |p| <= |a + b| {
        assert (a + b)[i..i + |p|] == b[i - |a|..i - |a| + |p|];
        assert !OccursAt(b, p, i - |a|);
      }
    }
  }

  /** Index of the first `c` in `s`. */
  function FirstIndex(s: string, c: char): (k: nat)
    requires c in s
    ensures k < |s| && s[k] == c && c !in s[..k]
  {
    if s[0] == c then 0
    else
      assert c in s[1..] by { assert s == [s[0]] + s[1..]; }
      var k := FirstIndex(s[1..], c);
      assert s[..k + 1] == [s[0]] + s[1..][..k];
      k + 1
  }

  /** Expanding a character around its first occurrence. */
  lemma ExpandAtFirst(s: string, c: char, t: string)
    requires c in s
    ensures var k := FirstIndex(s, c);
      && s == s[..k] + [c] + s[k + 1..]
      && ReplaceAll(s, [c], t) == s[..k] + (t + ReplaceAll(s[k + 1..], [c], t))
  {
    var k := FirstIndex(s, c);
    var u, v := s[..k], s[k + 1..];
    assert s == u + [c] + v;
    assert s == u + ([c] + v);
    calc {
      ReplaceAll(s, [c], t);
      ReplaceAll(u + ([c] + v), [c], t);
      { ReplaceCharConcat(u, [c] + v, c, t); }
      ReplaceAll(u, [c], t) + ReplaceAll([c] + v, [c], t);
      { CharAbsent(u, c); ReplaceAbsent(u, [c], t); }
      u + ReplaceAll([c] + v, [c], t);
      { ReplaceCharCons(c, v, c, t); }
      u + (t + ReplaceAll(v, [c], t));
    }
  }

  /** Contracting a token that cannot overlap itself, placed right after a text without it. */
  lemma ContractAfter(u: string, t: string, m: string, c: char)
    requires |t| > 0 && NoBorder(t) && !Occurs(u, t)
    ensures ReplaceAll(u + (t + m), t, [c]) == u + ([c] + ReplaceAll(m, t, [c]))
  {
    var w := u + (t + m);
    forall i: nat | i < |u| < i + |t| ensures !OccursAt(w, t, i) {
      var d := |u| - i;
      assert !Compatible(t[d..], t);
      var j :| 0 <= j < |t[d..]| && j < |t| && t[d..][j] != t[j];
      assert w[i..i + |t|][d + j] == w[|u| + j] == t[j];
    }
    ReplaceConcat(u, t + m, t, [c]);
    ReplaceAbsent(u, t, [c]);
    assert (t + m)[..|t|] == t && (t + m)[|t|..] == m;
  }

  /** Expanding a character into a token and contracting the token again restores the
      text, when the token cannot overlap itself and the text never held it. */
  lemma {:induction false} ExpandRoundTrip(s: string, c: char, t: string)
    requires |t| > 0 && NoBorder(t) && !Occurs(s, t)
    ensures ReplaceAll(ReplaceAll(s, [c], t), t, [c]) == s
    decreases |s|
  {
    if c !in s {
      CharAbsent(s, c);
      ReplaceAbsent(s, [c], t);
      ReplaceAbsent(s, t, [c]);
    } else {
      var k := FirstIndex(s, c);
      var u, v := s[..k], s[k + 1..];
      var m := ReplaceAll(v, [c], t);
      ExpandAtFirst(s, c, t);
      AbsentPrefix(s, t, k);
      AbsentSuffix(s, t, k + 1);
      ExpandRoundTrip(v, c, t);
      ContractAfter(u, t, m, c);
      Assoc(u, [c], v);
    }
  }

  /** Contracting a pattern into a character the text never held, and expanding the
      character again, restores the text. */
  lemma {:induction false} ContractRoundTrip(s: string, p: string, c: char)
    requires |p| > 0 && c !in s
    ensures ReplaceAll(ReplaceAll(s, p, [c]), [c], p) == s
    decreases |s|
  {
    if |s| > 0 {
      if |p| <= |s| && s[..|p|] == p {
        ReplaceCharCons(c, ReplaceAll(s[|p|..], p, [c]), c, p);
        assert c !in s[|p|..] by { assert forall k | 0 <= k < |s[|p|..]| :: s[|p|..][k] == s[k + |p|]; }
        ContractRoundTrip(s[|p|..], p, c);
        assert s == s[..|p|] + s[|p|..];
      } else {
        ReplaceCharCons(s[0], ReplaceAll(s[1..], p, [c]), c, p);
        assert c !in s[1..] by { assert forall k | 0 <= k < |s[1..]| :: s[1..][k] == s[k + 1]; }
        ContractRoundTrip(s[1..], p, c);
        assert s == [s[0]] + s[1..];
      }
    }
  }

  /** Expanding a character into a token cannot create an occurrence of a pattern
      that the token is unentangled with. */
  lemma {:induction false} ExpandKeepsAbsent(s: string, c: char, t: string, p: string)
    requires |p| > 0 && Unentangled(t, p) && !Occurs(s, p)
    ensures !Occurs(ReplaceAll(s, [c], t), p)
    decreases |s|
  {
    if c !in s {
      CharAbsent(s, c);
      ReplaceAbsent(s, [c], t);
    } else {
      var k := FirstIndex(s, c);
      var u, v := s[..k], s[k + 1..];
      ExpandAtFirst(s, c, t);
      AbsentSuffix(s, p, k + 1);
      var m := ReplaceAll(v, [c], t);
      var w := u + (t + m);
      ExpandKeepsAbsent(v, c, t, p);
      AbsentPrefix(s, p, k);
      forall i: nat | i <= |w| ensures !OccursAt(w, p, i) {
        SeamAbsentAt(u, t, m, p, i);
      }
    }
  }

  /** Placing an unentangled token between two texts without `p` creates no `p`
      at position `i`. */
  lemma SeamAbsentAt(u: string, t: string, m: string, p: string, i: nat)
    requires |p| > 0 && Unentangled(t, p) && !Occurs(u, p) && !Occurs(m, p)
    ensures !OccursAt(u + (t + m), p, i)
  {
    var w := u + (t + m);
    if i + |p| <= |w| {
      var sl := w[i..i + |p|];
      if i + |p| <= |u| {
        assert sl == u[i..i + |p|];
        assert !OccursAt(u, p, i);
      } else if i < |u| {
        assert sl[|u| - i] == t[0];
      } else if i < |u| + |t| {
        var d := i - |u|;
        if d == 0 {
          assert sl[0] == t[0];
        } else {
          assert !Compatible(t[d..], p);
          var j :| 0 <= j < |t[d..]| && j < |p| && t[d..][j] != p[j];
          assert sl[j] == w[i + j] == t[d + j];
        }
      } else {
        var i' := i - |u| - |t|;
        assert sl == m[i'..i' + |p|];
        assert !OccursAt(m, p, i');
      }
    }
  }

  // ---------------------------------------------------------------------------
  // Scanning helpers, join, lines, strip

  /** Every character of `s[lo..hi]` is in `cls`. */
  predicate Run(s: string, lo: nat, hi: nat, cls: char -> bool) {
    lo <= hi <= |s| && forall k | lo <= k < hi :: cls(s[k])
  }

  /** End of the longest run of characters satisfying `cls` that starts at `i`. */
  function SpanEnd(s: string, i: nat, cls: char -> bool): (j: nat)
    requires i <= |s|
    ensures i <= j <= |s|
    ensures forall k | i <= k < j :: cls(s[k])
    ensures j == |s| || !cls(s[j])
    decreases |s| - i
  {
    if i == |s| || !cls(s[i]) then i else SpanEnd(s, i + 1, cls)
  }

  /** The conditions that `SpanEnd` meets determine it. */
  lemma SpanEndUnique(s: string, i: nat, cls: char -> bool, j: nat)
    requires i <= j <= |s|
    requires forall k | i <= k < j :: cls(s[k])
    requires j == |s| || !cls(s[j])
    ensures SpanEnd(s, i, cls) == j
  {
  }

  lemma Assoc(a: string, b: string, c: string)
    ensures a + (b + c) == (a + b) + c
  {
  }

  /** Start of the longest run of characters satisfying `cls` that ends at `k`; what
      makes it that is stated apart, by `SpanStartSpec`. */
  function SpanStart(s: string, k: nat, cls: char -> bool): (j: nat)
    requires k <= |s|
    ensures j <= k
  {
    if k == 0 || !cls(s[k - 1]) then k else SpanStart(s, k - 1, cls)
  }

  lemma {:induction false} SpanStartSpec(s: string, k: nat, cls: char -> bool)
    requires k <= |s|
    ensures var j := SpanStart(s, k, cls);
      (forall m | j <= m < k :: cls(s[m])) && (j == 0 || !cls(s[j - 1]))
  {
    if k > 0 && cls(s[k - 1]) {
      SpanStartSpec(s, k - 1, cls);
    }
  }

  /** The conditions that `SpanStart` meets determine it. */
  lemma SpanStartUnique(s: string, k: nat, cls: char -> bool, j: nat)
    requires j <= k <= |s|
    requires forall m | j <= m < k :: cls(s[m])
    requires j == 0 || !cls(s[j - 1])
    ensures SpanStart(s, k, cls) == j
  {
  }

  /** `\b` at `k`: a word character on exactly one side. */
  predicate Boundary(s: string, k: nat) {
    (0 < k <= |s| && IsWordChar(s[k - 1])) != (k < |s| && IsWordChar(s[k]))
  }

  /** Python's `sep.join(parts)`. */
  function Join(parts: seq<string>, sep: string): string {
    if |parts| == 0 then ""
    else if |parts| == 1 then parts[0]
    else parts[0] + sep + Join(parts[1..], sep)
  }

  lemma JoinSnoc(parts: seq<string>, x: string, sep: string)
    ensures Join(parts + [x], sep) == if |parts| == 0 then x else Join(parts, sep) + sep + x
  {
    if |parts| == 1 {
      assert parts + [x] == [parts[0], x];
      assert [parts[0], x][1..] == [x];
    } else if |parts| > 1 {
      assert (parts + [x])[1..] == parts[1..] + [x];
      JoinSnoc(parts[1..], x, sep);
    }
  }

  /** Python's `s * n`. */
  function Repeat(s: string, n: nat): (r: string)
    ensures |r| == n * |s|
  {
    if n == 0 then "" else s + Repeat(s, n - 1)
  }

  /** Python's `s.lstrip()`. */
  function LStrip(s: string): (r: string)
    ensures |r| <= |s| && s[|s| - |r|..] == r
    ensures |r| == 0 || !IsUnicodeSpace(r[0])
    ensures forall k | 0 <= k < |s| - |r| :: IsUnicodeSpace(s[k])
  {
    if |s| > 0 && IsUnicodeSpace(s[0]) then LStrip(s[1..]) else s
  }

  /** Python's `s.isspace()`: at least one character, all of them whitespace. */
  predicate IsAllSpace(s: string) {
    |s| > 0 && forall k | 0 <= k < |s| :: IsUnicodeSpace(s[k])
  }

  predicate InLine(c: char) {
    !IsLineBreak(c)
  }

  /** Python's `s.splitlines()`: the lines without their line breaks, no empty last
      line for a trailing break, and `\r\n` taken as one break. */
  function SplitLines(s: string): (lines: seq<string>)
    ensures forall k | 0 <= k < |lines| :: forall j | 0 <= j < |lines[k]| :: !IsLineBreak(lines[k][j])
    decreases |s|
  {
    if |s| == 0 then []
    else
      var e := SpanEnd(s, 0, InLine);
      if e == |s| then [s]
      else
        var next := if s[e] == '\r' && e + 1 < |s| && s[e + 1] == '\n' then e + 2 else e + 1;
        [s[..e]] + SplitLines(s[next..])
  }

  /** Joining lines that hold no line break with `"\n"` and splitting the result
      again gives the lines back, provided the last one is not empty. */
  lemma {:induction false} SplitJoin(ls: seq<string>)
    requires forall k | 0 <= k < |ls| :: forall j | 0 <= j < |ls[k]| :: !IsLineBreak(ls[k][j])
    requires |ls| == 0 || ls[|ls| - 1] != ""
    ensures SplitLines(Join(ls, "\n")) == ls
  {
    if |ls| == 1 {
      SpanEndUnique(ls[0], 0, InLine, |ls[0]|);
    } else if |ls| > 1 {
      var s := Join(ls, "\n");
      var rest := Join(ls[1..], "\n");
      assert s == ls[0] + "\n" + rest;
      assert forall k | 0 <= k < |ls[0]| :: s[k] == ls[0][k];
      SpanEndUnique(s, 0, InLine, |ls[0]|);
      assert s[..|ls[0]|] == ls[0];
      assert s[|ls[0]| + 1..] == rest;
      SplitJoin(ls[1..]);
    }
  }

  /** A character of `sep.join(parts)` comes from a part or from the separator. */
  lemma {:induction false} JoinChars(parts: seq<string>, sep: string, c: char)
    requires c in Join(parts, sep)
    ensures c in sep || exists k | 0 <= k < |parts| :: c in parts[k]
  {
    if |parts| > 1 {
      if c !in parts[0] && c !in sep {
        JoinChars(parts[1..], sep, c);
        var k :| 0 <= k < |parts[1..]| && c in parts[1..][k];
        assert c in parts[k + 1];
      }
    }
  }
}
