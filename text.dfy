/** Characters, strings and decimal numbers as the JavaScript sources of the
    banner see them: the whitespace class of `\s`, `trim()` and `parseInt`,
    ASCII case folding for the `i` regular-expression flag, literal search and
    replacement, and the decimal conversions behind `String(n)` and
    `parseInt(s, 10)`. Strings are sequences of code points, while
    JavaScript indexes UTF-16 units: every character the code searches for
    or compares against is a single unit, so what is found and replaced
    agrees with the sources, but lengths and positions differ in text that
    holds characters outside the basic plane. */
module Text {

  datatype Option<T> = None | Some(value: T)

  /** The code points ECMAScript counts as WhiteSpace or LineTerminator:
      what `\s` matches and what `trim()` and `parseInt` skip. */
  predicate IsSpace(c: char) {
    || c == ' ' || c == '\t' || c == '\n' || c == '\U{B}' || c == '\U{C}' || c == '\r'
    || c == '\U{A0}' || c == '\U{1680}' || ('\U{2000}' <= c <= '\U{200A}')
    || c == '\U{2028}' || c == '\U{2029}' || c == '\U{202F}' || c == '\U{205F}'
    || c == '\U{3000}' || c == '\U{FEFF}'
  }

  /** The characters a regular-expression `.` does not match. */
  predicate IsLineTerminator(c: char) {
    c == '\n' || c == '\r' || c == '\U{2028}' || c == '\U{2029}'
  }

  predicate IsDigit(c: char) { '0' <= c <= '9' }

  predicate IsAsciiLetter(c: char) { 'a' <= c <= 'z' || 'A' <= c <= 'Z' }

  /** `[a-zA-Z0-9]` */
  predicate IsAlnum(c: char) { IsDigit(c) || IsAsciiLetter(c) }

  /** `\w` of a regular expression without the `u` flag. */
  predicate IsWordChar(c: char) { IsAlnum(c) || c == '_' }

  /** `[0-9A-F]` under the `i` flag. */
  predicate IsHexDigit(c: char) { IsDigit(c) || 'a' <= c <= 'f' || 'A' <= c <= 'F' }

  /** Case folding of the `i` flag restricted to ASCII: every pattern of the
      core is ASCII, and without the `u` flag no other character folds onto an
      ASCII one. */
  function LowerAscii(c: char): char {
    if 'A' <= c <= 'Z' then (c as int + 32) as char else c
  }

  predicate CharEq(a: char, b: char, ci: bool) {
    if ci then LowerAscii(a) == LowerAscii(b) else a == b
  }

  predicate StartsWith(s: string, prefix: string) {
    |prefix| <= |s| && s[..|prefix|] == prefix
  }

  /** `lit` occurs in `s` at index `i` (ASCII case folded when `ci`). */
  predicate MatchesAt(s: string, i: nat, lit: string, ci: bool) {
    i + |lit| <= |s| && forall k :: 0 <= k < |lit| ==> CharEq(s[i + k], lit[k], ci)
  }

  /** The leftmost index at or after `from` where `lit` occurs: what
      `indexOf`, `includes` and a regular expression made of the literal
      `lit` find. */
  function IndexFrom(s: string, lit: string, ci: bool, from: nat): (r: Option<nat>)
    decreases |s| - from
    ensures r.Some? ==> from <= r.value && MatchesAt(s, r.value, lit, ci)
    ensures forall i :: from <= i && (r.None? || i < r.value) ==> !MatchesAt(s, i, lit, ci)
  {
    if from + |lit| > |s| then None
    else if MatchesAt(s, from, lit, ci) then Some(from)
    else IndexFrom(s, lit, ci, from + 1)
  }

  /** `s.includes(lit)`, or `/lit/.test(s)` (with flag `i` when `ci`). */
  predicate Contains(s: string, lit: string, ci: bool) {
    IndexFrom(s, lit, ci, 0).Some?
  }

  lemma ContainsIff(s: string, lit: string, ci: bool)
    ensures Contains(s, lit, ci) <==> exists i: nat :: MatchesAt(s, i, lit, ci)
  {
  }

  /** A text that lacks one of the characters of `lit` does not contain
      `lit` (case-sensitive search). */
  lemma AbsentChar(s: string, lit: string, k: nat)
    requires k < |lit| && lit[k] !in s
    ensures !Contains(s, lit, false)
  {
    forall i: nat ensures !MatchesAt(s, i, lit, false) {
      if i + |lit| <= |s| {
        assert s[i + k] in s;
      }
    }
    ContainsIff(s, lit, false);
  }

  /** The same for a pattern character that is not a letter, under either
      case mode: no other character folds onto it. */
  lemma AbsentSymbol(s: string, lit: string, k: nat, ci: bool)
    requires k < |lit| && lit[k] !in s && !IsAsciiLetter(lit[k])
    ensures !Contains(s, lit, ci)
  {
    forall i: nat ensures !MatchesAt(s, i, lit, ci) {
      if i + |lit| <= |s| {
        assert s[i + k] in s;
        assert !CharEq(s[i + k], lit[k], ci);
      }
    }
    ContainsIff(s, lit, ci);
  }

  /** A replacement keeps a character out of the text when neither the text
      nor the replacement holds it. */
  lemma {:induction false} ReplaceAllKeepsAbsent(s: string, lit: string, rep: string, ci: bool, c: char)
    requires |lit| > 0 && c !in s && c !in rep
    ensures c !in ReplaceAll(s, lit, rep, ci)
    decreases |s|
  {
    if |s| >= |lit| {
      if MatchesAt(s, 0, lit, ci) {
        ReplaceAllKeepsAbsent(s[|lit|..], lit, rep, ci, c);
      } else {
        ReplaceAllKeepsAbsent(s[1..], lit, rep, ci, c);
      }
    }
  }

  /** `s.replace(/lit/g, rep)` for a literal pattern (flag `i` when `ci`):
      occurrences are found left to right and do not overlap. */
  function ReplaceAll(s: string, lit: string, rep: string, ci: bool): string
    requires |lit| > 0
    decreases |s|
  {
    if |s| < |lit| then s
    else if MatchesAt(s, 0, lit, ci) then rep + ReplaceAll(s[|lit|..], lit, rep, ci)
    else [s[0]] + ReplaceAll(s[1..], lit, rep, ci)
  }

  /** A replacement whose pattern does not occur changes nothing. */
  lemma {:induction false} ReplaceAllAbsent(s: string, lit: string, rep: string, ci: bool)
    requires |lit| > 0
    requires !Contains(s, lit, ci)
    ensures ReplaceAll(s, lit, rep, ci) == s
  {
    ContainsIff(s, lit, ci);
    if |s| >= |lit| {
      assert !MatchesAt(s, 0, lit, ci);
      forall i: nat | MatchesAt(s[1..], i, lit, ci) ensures false {
        assert MatchesAt(s, i + 1, lit, ci) by {
          forall k | 0 <= k < |lit| ensures CharEq(s[i + 1 + k], lit[k], ci) {
            assert s[1..][i + k] == s[i + 1 + k];
          }
        }
      }
      ContainsIff(s[1..], lit, ci);
      ReplaceAllAbsent(s[1..], lit, rep, ci);
    }
  }

  /** Replacing every occurrence of a one-character pattern by text that does
      not hold that character leaves none behind. */
  lemma {:induction false} ReplaceAllRemovesChar(s: string, c: char, rep: string)
    requires c !in rep
    ensures c !in ReplaceAll(s, [c], rep, false)
  {
    if |s| >= 1 {
      ReplaceAllRemovesChar(s[1..], c, rep);
      if !MatchesAt(s, 0, [c], false) {
        assert s[0] != c;
      }
    }
  }

  /** Every character of `w` is a space. */
  predicate AllSpaces(w: string) {
    forall k :: 0 <= k < |w| ==> IsSpace(w[k])
  }

  /** `s` without its leading run of spaces. */
  function DropSpaces(s: string): (r: string)
    ensures |r| <= |s| && r == s[|s| - |r|..]
    ensures r == [] || !IsSpace(r[0])
    ensures forall k :: 0 <= k < |s| - |r| ==> IsSpace(s[k])
    ensures s != [] && IsSpace(s[0]) ==> |r| < |s|
  {
    if s != [] && IsSpace(s[0]) then DropSpaces(s[1..]) else s
  }

  /** `s` without its trailing run of spaces. */
  function DropTrailingSpaces(s: string): (r: string)
    ensures |r| <= |s| && r == s[..|r|]
    ensures r == [] || !IsSpace(r[|r| - 1])
    ensures forall k :: |r| <= k < |s| ==> IsSpace(s[k])
  {
    if s != [] && IsSpace(s[|s| - 1]) then DropTrailingSpaces(s[..|s| - 1]) else s
  }

  /** No two adjacent characters are both spaces. */
  predicate NoSpaceRun(s: string) {
    forall k :: 0 <= k < |s| - 1 ==> !(IsSpace(s[k]) && IsSpace(s[k + 1]))
  }

  /** `s.trim()`: the leading and trailing spaces removed, and only those. */
  function Trim(s: string): (r: string)
    ensures r == [] || (!IsSpace(r[0]) && !IsSpace(r[|r| - 1]))
    ensures NoSpaceRun(s) ==> NoSpaceRun(r)
  {
    var t := DropSpaces(s);
    var r := DropTrailingSpaces(t);
    NoSpaceRunOfSlice(s, |s| - |t|, t, r);
    r
  }

  lemma NoSpaceRunOfSlice(s: string, a: nat, t: string, r: string)
    requires a <= |s| && t == s[a..] && |r| <= |t| && r == t[..|r|]
    ensures NoSpaceRun(s) ==> NoSpaceRun(r)
  {
    if NoSpaceRun(s) {
      forall k | 0 <= k < |r| - 1 ensures !(IsSpace(r[k]) && IsSpace(r[k + 1])) {
        assert r[k] == s[a + k] && r[k + 1] == s[a + k + 1];
      }
    }
  }

  /** The number of spaces `s` starts with. */
  function LeadingSpaces(s: string): (n: nat)
    ensures n <= |s| && AllSpaces(s[..n])
  {
    |s| - |DropSpaces(s)|
  }

  /** `trim()` removes only the edges: the result is the slice of `s`
      after its leading spaces, and everything after that slice is a space
      too. */
  lemma TrimKeepsMiddle(s: string)
    ensures var r, a := Trim(s), LeadingSpaces(s);
      a + |r| <= |s| && r == s[a..a + |r|] && AllSpaces(s[a + |r|..])
  {
    var t := DropSpaces(s);
    PrefixOfSuffix(s, |s| - |t|, t, DropTrailingSpaces(t));
  }

  /** A prefix `r` of the suffix `t` of `s` that starts at `a` is the slice
      of `s` at `a`; if `t` holds only spaces after `r`, so does `s`. */
  lemma PrefixOfSuffix(s: string, a: nat, t: string, r: string)
    requires a <= |s| && t == s[a..] && |r| <= |t| && r == t[..|r|]
    requires forall k :: |r| <= k < |t| ==> IsSpace(t[k])
    ensures a + |r| <= |s| && r == s[a..a + |r|] && AllSpaces(s[a + |r|..])
  {
    var tail := s[a + |r|..];
    forall k | 0 <= k < |tail| ensures IsSpace(tail[k]) {
      assert tail[k] == t[|r| + k];
    }
  }

  /** `s.replace(/\s+/g, ' ')`: every maximal run of spaces becomes one ' '. */
  function CollapseSpaces(s: string): string
    decreases |s|
  {
    if s == [] then []
    else if IsSpace(s[0]) then " " + CollapseSpaces(DropSpaces(s))
    else [s[0]] + CollapseSpaces(s[1..])
  }

  /** After collapsing, no two spaces are adjacent, and the result starts with
      a space exactly when the input does. */
  lemma {:induction false} CollapseSpacesNoRun(s: string)
    ensures NoSpaceRun(CollapseSpaces(s))
    ensures CollapseSpaces(s) == [] <==> s == []
    ensures s != [] ==> (IsSpace(CollapseSpaces(s)[0]) <==> IsSpace(s[0]))
    decreases |s|
  {
    if s != [] {
      if IsSpace(s[0]) {
        var t := DropSpaces(s);
        CollapseSpacesNoRun(t);
        var c := CollapseSpaces(t);
        assert CollapseSpaces(s) == " " + c;
        assert t == [] || !IsSpace(t[0]);
        assert c == [] || !IsSpace(c[0]);
      } else {
        CollapseSpacesNoRun(s[1..]);
        var c := CollapseSpaces(s[1..]);
        assert CollapseSpaces(s) == [s[0]] + c;
      }
    }
  }

  /** Cutting `a + b` between `a` and `b` does not split a run of spaces. */
  predicate RunBoundary(a: string, b: string) {
    a == [] || b == [] || !IsSpace(a[|a| - 1]) || !IsSpace(b[0])
  }

  lemma RunBoundaryOfTail(a: string, b: string)
    requires a != [] && RunBoundary(a, b)
    ensures RunBoundary(a[1..], b)
  {
    if |a| > 1 {
      assert a[1..][|a| - 2] == a[|a| - 1];
    }
  }

  lemma ConcatAssoc(x: string, y: string, z: string)
    ensures x + (y + z) == (x + y) + z
  {
  }

  lemma {:induction false} DropSpacesOfConcat(a: string, b: string)
    requires a != [] && RunBoundary(a, b)
    ensures DropSpaces(a + b) == DropSpaces(a) + b
    decreases |a|
  {
    assert (a + b)[0] == a[0];
    if IsSpace(a[0]) {
      var t := a[1..];
      assert (a + b)[1..] == t + b;
      assert DropSpaces(a + b) == DropSpaces(t + b);
      assert DropSpaces(a) == DropSpaces(t);
      if t == [] {
        assert t + b == b;
        assert b == [] || !IsSpace(b[0]);
      } else {
        assert t[|t| - 1] == a[|a| - 1];
        DropSpacesOfConcat(t, b);
      }
    }
  }

  /** The leading run of `a` is dropped from `a + b` as from `a`, and what
      is left still meets `b` at a boundary. */
  lemma DropLeadingRun(a: string, b: string) returns (d: string)
    requires a != [] && IsSpace(a[0]) && RunBoundary(a, b)
    ensures d == DropSpaces(a) && |d| < |a|
    ensures DropSpaces(a + b) == d + b && RunBoundary(d, b)
  {
    d := DropSpaces(a);
    DropSpacesOfConcat(a, b);
    if d != [] {
      assert d[|d| - 1] == a[|a| - 1];
    }
  }

  lemma AllSpacesDropToEmpty(w: string)
    requires AllSpaces(w)
    ensures DropSpaces(w) == []
  {
  }

  lemma CollapseSpacesAtSpace(s: string)
    requires s != [] && IsSpace(s[0])
    ensures CollapseSpaces(s) == " " + CollapseSpaces(DropSpaces(s))
  {
  }

  lemma CollapseSpacesCons(c: char, x: string)
    requires !IsSpace(c)
    ensures CollapseSpaces([c] + x) == [c] + CollapseSpaces(x)
  {
    assert ([c] + x)[0] == c;
    assert ([c] + x)[1..] == x;
  }

  /** `replace(/\s+/g, ' ')` works run by run: cut where no run is split,
      the two sides are replaced independently. */
  lemma {:induction false} CollapseSpacesOfConcat(a: string, b: string)
    requires RunBoundary(a, b)
    ensures CollapseSpaces(a + b) == CollapseSpaces(a) + CollapseSpaces(b)
    decreases |a|
  {
    if a == [] {
      assert a + b == b;
    } else if IsSpace(a[0]) {
      var d := DropLeadingRun(a, b);
      CollapseSpacesOfConcat(d, b);
      CollapseSpacesSpaceStep(a, b, d);
    } else {
      var c, t := a[0], a[1..];
      assert a == [c] + t;
      RunBoundaryOfTail(a, b);
      CollapseSpacesOfConcat(t, b);
      CollapseSpacesCharStep(c, t, b);
    }
  }

  lemma CollapseSpacesSpaceStep(a: string, b: string, d: string)
    requires a != [] && IsSpace(a[0]) && d == DropSpaces(a) && DropSpaces(a + b) == d + b
    requires CollapseSpaces(d + b) == CollapseSpaces(d) + CollapseSpaces(b)
    ensures CollapseSpaces(a + b) == CollapseSpaces(a) + CollapseSpaces(b)
  {
    assert (a + b)[0] == a[0];
    CollapseSpacesAtSpace(a);
    CollapseSpacesAtSpace(a + b);
    ConcatAssoc(" ", CollapseSpaces(d), CollapseSpaces(b));
  }

  lemma CollapseSpacesCharStep(c: char, t: string, b: string)
    requires !IsSpace(c)
    requires CollapseSpaces(t + b) == CollapseSpaces(t) + CollapseSpaces(b)
    ensures CollapseSpaces([c] + t + b) == CollapseSpaces([c] + t) + CollapseSpaces(b)
  {
    ConcatAssoc([c], t, b);
    CollapseSpacesCons(c, t);
    CollapseSpacesCons(c, t + b);
    ConcatAssoc([c], CollapseSpaces(t), CollapseSpaces(b));
  }

  /** What `replace(/\s+/g, ' ')` means, with the next lemma: a maximal
      run of spaces, between text that does not end with a space and text
      that does not start with one, becomes a single ' '. */
  lemma CollapseSpacesOfRun(a: string, w: string, b: string)
    requires a == [] || !IsSpace(a[|a| - 1])
    requires b == [] || !IsSpace(b[0])
    requires w != [] && AllSpaces(w)
    ensures CollapseSpaces(a + w + b) == CollapseSpaces(a) + " " + CollapseSpaces(b)
  {
    var aw := a + w;
    CollapseSpacesOfConcat(a, w);
    CollapseSpacesOfConcat(aw, b);
    CollapseSpacesOfSpaces(w);
  }

  lemma CollapseSpacesOfSpaces(w: string)
    requires w != [] && AllSpaces(w)
    ensures CollapseSpaces(w) == " "
  {
    CollapseSpacesAtSpace(w);
    AllSpacesDropToEmpty(w);
    assert CollapseSpaces([]) == [];
    assert " " + [] == " ";
  }

  /** A character that is not a space is kept in its place. */
  lemma CollapseSpacesKeepsChar(a: string, c: char, b: string)
    requires !IsSpace(c)
    ensures CollapseSpaces(a + [c] + b) == CollapseSpaces(a) + [c] + CollapseSpaces(b)
  {
    CollapseSpacesOfConcat(a, [c]);
    CollapseSpacesOfConcat(a + [c], b);
    CollapseSpacesCons(c, []);
    assert [c] + [] == [c];
    assert CollapseSpaces([]) == [];
  }

  /** `s.replace(/\s\s+/g, sep)`: every run of two or more spaces becomes `sep`. */
  function ReplaceSpaceRuns(s: string, sep: string): string
    decreases |s|
  {
    if |s| >= 2 && IsSpace(s[0]) && IsSpace(s[1]) then sep + ReplaceSpaceRuns(DropSpaces(s), sep)
    else if s == [] then []
    else [s[0]] + ReplaceSpaceRuns(s[1..], sep)
  }

  /** The replacement fires at `[c] + x`: `c` and the first character of
      `x` are both spaces. */
  predicate StartsRun(c: char, x: string) {
    IsSpace(c) && x != [] && IsSpace(x[0])
  }

  lemma ReplaceSpaceRunsAtRun(s: string, sep: string)
    requires |s| >= 2 && IsSpace(s[0]) && IsSpace(s[1])
    ensures ReplaceSpaceRuns(s, sep) == sep + ReplaceSpaceRuns(DropSpaces(s), sep)
  {
  }

  lemma ReplaceSpaceRunsCons(c: char, x: string, sep: string)
    requires !StartsRun(c, x)
    ensures ReplaceSpaceRuns([c] + x, sep) == [c] + ReplaceSpaceRuns(x, sep)
  {
    assert ([c] + x)[0] == c;
    if x != [] {
      assert ([c] + x)[1] == x[0];
    }
    assert ([c] + x)[1..] == x;
  }

  /** `replace(/\s\s+/g, sep)` works run by run as well. */
  lemma {:induction false} ReplaceSpaceRunsOfConcat(a: string, b: string, sep: string)
    requires RunBoundary(a, b)
    ensures ReplaceSpaceRuns(a + b, sep) == ReplaceSpaceRuns(a, sep) + ReplaceSpaceRuns(b, sep)
    decreases |a|
  {
    if a == [] {
      assert a + b == b;
    } else if |a| >= 2 && IsSpace(a[0]) && IsSpace(a[1]) {
      var d := DropLeadingRun(a, b);
      ReplaceSpaceRunsOfConcat(d, b, sep);
      ReplaceSpaceRunsRunStep(a, b, d, sep);
    } else {
      var c, t := a[0], a[1..];
      assert a == [c] + t;
      if t != [] {
        assert t[0] == a[1] && (t + b)[0] == t[0];
      } else {
        assert t + b == b;
        assert a[|a| - 1] == c;
      }
      RunBoundaryOfTail(a, b);
      ReplaceSpaceRunsOfConcat(t, b, sep);
      ReplaceSpaceRunsCharStep(c, t, b, sep);
    }
  }

  lemma ReplaceSpaceRunsRunStep(a: string, b: string, d: string, sep: string)
    requires |a| >= 2 && IsSpace(a[0]) && IsSpace(a[1]) && d == DropSpaces(a) && DropSpaces(a + b) == d + b
    requires ReplaceSpaceRuns(d + b, sep) == ReplaceSpaceRuns(d, sep) + ReplaceSpaceRuns(b, sep)
    ensures ReplaceSpaceRuns(a + b, sep) == ReplaceSpaceRuns(a, sep) + ReplaceSpaceRuns(b, sep)
  {
    assert (a + b)[0] == a[0] && (a + b)[1] == a[1];
    ReplaceSpaceRunsAtRun(a, sep);
    ReplaceSpaceRunsAtRun(a + b, sep);
    ConcatAssoc(sep, ReplaceSpaceRuns(d, sep), ReplaceSpaceRuns(b, sep));
  }

  lemma ReplaceSpaceRunsCharStep(c: char, t: string, b: string, sep: string)
    requires !StartsRun(c, t) && !StartsRun(c, t + b)
    requires ReplaceSpaceRuns(t + b, sep) == ReplaceSpaceRuns(t, sep) + ReplaceSpaceRuns(b, sep)
    ensures ReplaceSpaceRuns([c] + t + b, sep) == ReplaceSpaceRuns([c] + t, sep) + ReplaceSpaceRuns(b, sep)
  {
    ConcatAssoc([c], t, b);
    ReplaceSpaceRunsCons(c, t, sep);
    ReplaceSpaceRunsCons(c, t + b, sep);
    ConcatAssoc([c], ReplaceSpaceRuns(t, sep), ReplaceSpaceRuns(b, sep));
  }

  /** What `replace(/\s\s+/g, sep)` means, with the next lemma: a maximal
      run of two or more spaces becomes `sep`, and a lone space is kept. */
  lemma ReplaceSpaceRunsOfRun(a: string, w: string, b: string, sep: string)
    requires a == [] || !IsSpace(a[|a| - 1])
    requires b == [] || !IsSpace(b[0])
    requires w != [] && AllSpaces(w)
    ensures ReplaceSpaceRuns(a + w + b, sep)
         == ReplaceSpaceRuns(a, sep) + (if |w| >= 2 then sep else w) + ReplaceSpaceRuns(b, sep)
  {
    var aw := a + w;
    ReplaceSpaceRunsOfConcat(a, w, sep);
    ReplaceSpaceRunsOfConcat(aw, b, sep);
    ReplaceSpaceRunsOfSpaces(w, sep);
  }

  lemma ReplaceSpaceRunsOfSpaces(w: string, sep: string)
    requires w != [] && AllSpaces(w)
    ensures ReplaceSpaceRuns(w, sep) == if |w| >= 2 then sep else w
  {
    assert ReplaceSpaceRuns([], sep) == [];
    if |w| >= 2 {
      ReplaceSpaceRunsAtRun(w, sep);
      AllSpacesDropToEmpty(w);
      assert sep + [] == sep;
    } else {
      assert w == [w[0]] + [];
      ReplaceSpaceRunsCons(w[0], [], sep);
    }
  }

  /** A character that is not a space is kept in its place. */
  lemma ReplaceSpaceRunsKeepsChar(a: string, c: char, b: string, sep: string)
    requires !IsSpace(c)
    ensures ReplaceSpaceRuns(a + [c] + b, sep) == ReplaceSpaceRuns(a, sep) + [c] + ReplaceSpaceRuns(b, sep)
  {
    ReplaceSpaceRunsOfConcat(a, [c], sep);
    ReplaceSpaceRunsOfConcat(a + [c], b, sep);
    ReplaceSpaceRunsCons(c, [], sep);
    assert [c] + [] == [c];
    assert ReplaceSpaceRuns([], sep) == [];
  }

  /** On a string without adjacent spaces the run replacement never fires. */
  lemma {:induction false} ReplaceSpaceRunsIdle(s: string, sep: string)
    requires NoSpaceRun(s)
    ensures ReplaceSpaceRuns(s, sep) == s
    decreases |s|
  {
    if s != [] {
      assert !(|s| >= 2 && IsSpace(s[0]) && IsSpace(s[1]));
      assert NoSpaceRun(s[1..]) by {
        forall k | 0 <= k < |s[1..]| - 1 ensures !(IsSpace(s[1..][k]) && IsSpace(s[1..][k + 1])) {
          assert s[1..][k] == s[k + 1] && s[1..][k + 1] == s[k + 2];
        }
      }
      ReplaceSpaceRunsIdle(s[1..], sep);
    }
  }

  function DigitChar(d: nat): char
    requires d < 10
  {
    ('0' as int + d) as char
  }

  function DigitValue(c: char): nat
    requires IsDigit(c)
  {
    c as int - '0' as int
  }

  predicate AllDigits(s: string) {
    forall k :: 0 <= k < |s| ==> IsDigit(s[k])
  }

  /** Decimal rendering of a natural number, as `String(n)` and a template
      literal print an integer. */
  function NatToString(n: nat): (r: string)
    ensures |r| >= 1 && AllDigits(r)
  {
    if n < 10 then [DigitChar(n)] else NatToString(n / 10) + [DigitChar(n % 10)]
  }

  /** `String(n)` for an integer (exponent notation from 1e21 on is not modelled). */
  function IntToString(n: int): string {
    if n < 0 then "-" + NatToString(-n) else NatToString(n)
  }

  /** The value of a string of decimal digits. */
  function DigitsValue(s: string): nat
    requires AllDigits(s)
  {
    if s == [] then 0 else DigitsValue(s[..|s| - 1]) * 10 + DigitValue(s[|s| - 1])
  }

  /** Reading back a rendered natural number gives the number. */
  lemma {:induction false} DigitsValueOfNatToString(n: nat)
    ensures DigitsValue(NatToString(n)) == n
  {
    if n >= 10 {
      DigitsValueOfNatToString(n / 10);
      var s := NatToString(n);
      assert s[..|s| - 1] == NatToString(n / 10);
    }
  }

  /** Distinct numbers render differently. */
  lemma NatToStringInjective(a: nat, b: nat)
    requires NatToString(a) == NatToString(b)
    ensures a == b
  {
    DigitsValueOfNatToString(a);
    DigitsValueOfNatToString(b);
  }

  /** The length of the leading run of decimal digits. */
  function DigitPrefixLength(s: string): (n: nat)
    ensures n <= |s| && AllDigits(s[..n]) && (n == |s| || !IsDigit(s[n]))
    ensures AllDigits(s) ==> n == |s|
  {
    if s != [] && IsDigit(s[0]) then
      var n := 1 + DigitPrefixLength(s[1..]);
      assert s[..n] == [s[0]] + s[1..][..n - 1];
      n
    else 0
  }

  /** The value of the leading run of decimal digits; `None` when there is none. */
  function LeadingDigits(u: string): (r: Option<nat>)
    ensures r.Some? <==> u != [] && IsDigit(u[0])
  {
    var n := DigitPrefixLength(u);
    if n == 0 then None else Some(DigitsValue(u[..n]))
  }

  /** `parseInt(s, 10)`: leading spaces are skipped, then an optional sign,
      then the longest run of decimal digits is read; `None` is `NaN`
      (no digit at all). A negative zero is read as 0. */
  function ParseInt10(s: string): Option<int> {
    var t := DropSpaces(s);
    if t != [] && t[0] == '-' then
      match LeadingDigits(t[1..])
      case None => None
      case Some(v) => Some(-(v as int))
    else if t != [] && t[0] == '+' then
      match LeadingDigits(t[1..])
      case None => None
      case Some(v) => Some(v as int)
    else
      match LeadingDigits(t)
      case None => None
      case Some(v) => Some(v as int)
  }

  /** `parseInt` reads a number exactly when, after the leading spaces,
      a digit comes first or right after a sign; only a `-` makes it
      negative. */
  lemma ParseIntReadsIff(s: string)
    ensures var t, r := DropSpaces(s), ParseInt10(s);
      && (r.Some? <==> (t != [] && IsDigit(t[0])) || (|t| >= 2 && (t[0] == '-' || t[0] == '+') && IsDigit(t[1])))
      && (r.Some? && r.value < 0 ==> t[0] == '-')
  {
    var t := DropSpaces(s);
    if t != [] && t[0] == '-' {
      SignedRead(t, LeadingDigits(t[1..]), ParseInt10(s));
    } else if t != [] && t[0] == '+' {
      SignedRead(t, LeadingDigits(t[1..]), ParseInt10(s));
    }
  }

  lemma SignedRead(t: string, v: Option<nat>, r: Option<int>)
    requires t != [] && (t[0] == '-' || t[0] == '+')
    requires v.Some? <==> |t| >= 2 && IsDigit(t[1])
    requires r.Some? <==> v.Some?
    ensures r.Some? <==> (t != [] && IsDigit(t[0])) || (|t| >= 2 && (t[0] == '-' || t[0] == '+') && IsDigit(t[1]))
  {
  }

  lemma DigitIsNotSpace(c: char)
    requires IsDigit(c)
    ensures !IsSpace(c) && c != '-' && c != '+'
  {
  }

  /** A string of digits is read as its value. */
  lemma LeadingDigitsOfDigits(d: string)
    requires d != [] && AllDigits(d)
    ensures LeadingDigits(d) == Some(DigitsValue(d))
  {
    assert d[..|d|] == d;
  }

  /** `parseInt(String(n), 10) == n` for every integer: the round trip the
      speed field relies on. */
  lemma ParseIntOfIntToString(n: int)
    ensures ParseInt10(IntToString(n)) == Some(n)
  {
    var m: nat := if n < 0 then -n else n;
    var d := NatToString(m);
    DigitsValueOfNatToString(m);
    LeadingDigitsOfDigits(d);
    if n < 0 {
      var s := "-" + d;
      assert DropSpaces(s) == s;
      assert s[1..] == d;
    } else {
      DigitIsNotSpace(d[0]);
      assert DropSpaces(d) == d;
    }
  }

  /** The digit run of `d + rest` is `d` when `rest` does not go on with a digit. */
  lemma {:induction false} DigitPrefixOfConcat(d: string, rest: string)
    requires AllDigits(d) && (rest == [] || !IsDigit(rest[0]))
    ensures DigitPrefixLength(d + rest) == |d|
  {
    if d != [] {
      assert (d + rest)[1..] == d[1..] + rest;
      DigitPrefixOfConcat(d[1..], rest);
    }
  }

  /** `parseInt` reads only the leading digits: whatever follows the first
      non-digit is ignored. */
  lemma ParseIntReadsDigitPrefix(d: string, rest: string)
    requires d != [] && AllDigits(d) && (rest == [] || !IsDigit(rest[0]))
    ensures ParseInt10(d + rest) == Some(DigitsValue(d) as int)
  {
    var s := d + rest;
    DigitIsNotSpace(d[0]);
    assert s[0] == d[0];
    assert DropSpaces(s) == s;
    DigitPrefixOfConcat(d, rest);
    assert s[..|d|] == d;
  }

  /** `s.substring(start, end)`: both bounds clamped to `[0, |s|]` and
      swapped when reversed. */
  function Substring(s: string, start: int, end: int): (r: string)
    ensures |r| <= |s|
    ensures 0 <= start <= end ==> |r| <= end - start
    ensures 0 <= start <= end <= |s| ==> r == s[start..end]
  {
    var a := if start < 0 then 0 else if start > |s| then |s| else start;
    var b := if end < 0 then 0 else if end > |s| then |s| else end;
    if a <= b then s[a..b] else s[b..a]
  }

  /** `items.join(sep)` */
  function Join(items: seq<string>, sep: string): string {
    if items == [] then ""
    else if |items| == 1 then items[0]
    else items[0] + sep + Join(items[1..], sep)
  }
}
