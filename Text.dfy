/** String operations that ipm.py takes from Python's `str`:
    `lower`/`upper`, slicing, `startswith`/`endswith`, `replace`,
    `split` on a one-character separator and `join`. */
module Text {
  import opened Outcomes

  // ---------------------------------------------------------------------------
  // Case mapping (ASCII letters only)
  // ---------------------------------------------------------------------------

  function LowerChar(c: char): char {
    if 'A' <= c <= 'Z' then (c as int + 32) as char else c
  }

  function UpperChar(c: char): char {
    if 'a' <= c <= 'z' then (c as int - 32) as char else c
  }

  /** `s.lower()` */
  function Lower(s: string): string {
    seq(|s|, i requires 0 <= i < |s| => LowerChar(s[i]))
  }

  /** `s.upper()` */
  function Upper(s: string): string {
    seq(|s|, i requires 0 <= i < |s| => UpperChar(s[i]))
  }

  /** Upper-casing forgets whether the string was lower-cased first. */
  lemma UpperOfLower(s: string)
    ensures Upper(Lower(s)) == Upper(s)
  {
    forall i | 0 <= i < |s|
      ensures Upper(Lower(s))[i] == Upper(s)[i]
    {
      UpperOfLowerChar(s[i]);
    }
  }

  lemma UpperOfLowerChar(c: char)
    ensures UpperChar(LowerChar(c)) == UpperChar(c)
  {
    if 'A' <= c <= 'Z' {
      assert LowerChar(c) == (c as int + 32) as char;
    }
  }

  /** Lower-casing distributes over concatenation. */
  lemma LowerAppend(a: string, b: string)
    ensures Lower(a + b) == Lower(a) + Lower(b)
  {
  }

  /** Case mapping and taking a prefix commute. */
  lemma TakeLower(s: string, n: nat)
    ensures Take(Lower(s), n) == Lower(Take(s, n))
  {
  }

  // ---------------------------------------------------------------------------
  // Python slices with out-of-range bounds clamped
  // ---------------------------------------------------------------------------

  /** `s[:n]` */
  function Take<T>(s: seq<T>, n: nat): seq<T> {
    if n <= |s| then s[..n] else s
  }

  /** `s[n:]` */
  function Drop<T>(s: seq<T>, n: nat): seq<T> {
    if n <= |s| then s[n..] else []
  }

  predicate StartsWith(s: string, p: string) {
    |p| <= |s| && s[..|p|] == p
  }

  predicate EndsWith(s: string, p: string) {
    |p| <= |s| && s[|s| - |p|..] == p
  }

  // ---------------------------------------------------------------------------
  // Occurrences and `str.replace`
  // ---------------------------------------------------------------------------

  /** `pat` occurs in `s` starting at index `i`. */
  predicate MatchAt(s: string, pat: string, i: nat) {
    i + |pat| <= |s| && s[i..i + |pat|] == pat
  }

  predicate Occurs(s: string, pat: string) {
    exists i: nat | i <= |s| :: MatchAt(s, pat, i)
  }

  /** Occurrences in `s` past its first character are those of `s[1..]`. */
  lemma OccursTail(s: string, pat: string)
    requires s != []
    ensures Occurs(s, pat) <==> MatchAt(s, pat, 0) || Occurs(s[1..], pat)
  {
    forall j: nat | 0 < j
      ensures MatchAt(s, pat, j) <==> MatchAt(s[1..], pat, j - 1)
    {
      MatchAtTail(s, pat, j);
    }
    if Occurs(s, pat) && !MatchAt(s, pat, 0) {
      var j: nat :| j <= |s| && MatchAt(s, pat, j);
      assert MatchAt(s[1..], pat, j - 1);
    }
    if Occurs(s[1..], pat) {
      var j: nat :| j <= |s[1..]| && MatchAt(s[1..], pat, j);
      assert MatchAt(s, pat, j + 1);
    }
  }

  lemma MatchAtTail(s: string, pat: string, j: nat)
    requires s != [] && 0 < j
    ensures MatchAt(s, pat, j) <==> MatchAt(s[1..], pat, j - 1)
  {
    if j + |pat| <= |s| {
      assert s[j..j + |pat|] == s[1..][j - 1..j - 1 + |pat|];
    }
  }

  /** `s.replace("", rep)`: `rep` before every character and at the end. */
  function ReplaceEmpty(s: string, rep: string): string
    decreases |s|
  {
    if s == [] then rep else rep + [s[0]] + ReplaceEmpty(s[1..], rep)
  }

  /** `s.replace(pat, rep)`: the text is scanned left to right; where `pat`
      starts, `rep` is emitted and the scan resumes after that occurrence,
      so the occurrences replaced are the leftmost non-overlapping ones. */
  function ReplaceAll(s: string, pat: string, rep: string): string
    decreases |s|
  {
    if pat == [] then ReplaceEmpty(s, rep)
    else if |s| < |pat| then s
    else if s[..|pat|] == pat then rep + ReplaceAll(s[|pat|..], pat, rep)
    else [s[0]] + ReplaceAll(s[1..], pat, rep)
  }

  /** How many occurrences ReplaceAll replaces. */
  function CountMatches(s: string, pat: string): nat
    requires pat != []
    decreases |s|
  {
    if |s| < |pat| then 0
    else if s[..|pat|] == pat then 1 + CountMatches(s[|pat|..], pat)
    else CountMatches(s[1..], pat)
  }

  lemma {:induction false} ReplaceEmptyLength(s: string, rep: string)
    ensures |ReplaceEmpty(s, rep)| == |s| + (|s| + 1) * |rep|
    decreases |s|
  {
    if s != [] {
      ReplaceEmptyLength(s[1..], rep);
    }
  }

  /** The length after replacing: each replaced occurrence trades `|pat|`
      characters for `|rep|`. */
  lemma {:induction false} ReplaceAllLength(s: string, pat: string, rep: string)
    requires pat != []
    ensures |ReplaceAll(s, pat, rep)| == |s| + CountMatches(s, pat) * (|rep| - |pat|)
    decreases |s|
  {
    if |s| < |pat| {
    } else if s[..|pat|] == pat {
      var rest := s[|pat|..];
      ReplaceAllLength(rest, pat, rep);
      MulSucc(CountMatches(rest, pat), |rep| - |pat|);
    } else {
      ReplaceAllLength(s[1..], pat, rep);
    }
  }

  lemma MulSucc(c: int, d: int)
    ensures (1 + c) * d == d + c * d
  {
  }

  /** Every occurrence present is counted: some replacement happens. */
  lemma {:induction false} CountPositive(s: string, pat: string)
    requires pat != [] && Occurs(s, pat)
    ensures CountMatches(s, pat) >= 1
    decreases |s|
  {
    OccursTail(s, pat);
    if |s| >= |pat| && s[..|pat|] != pat {
      CountPositive(s[1..], pat);
    }
  }

  /** Replacing a pattern by itself changes nothing. */
  lemma {:induction false} ReplaceBySelf(s: string, pat: string)
    ensures ReplaceAll(s, pat, pat) == s
    decreases |s|
  {
    if pat == [] {
      ReplaceEmptyNothing(s);
    } else if |s| < |pat| {
    } else if s[..|pat|] == pat {
      ReplaceBySelf(s[|pat|..], pat);
      assert s == s[..|pat|] + s[|pat|..];
    } else {
      ReplaceBySelf(s[1..], pat);
      assert s == [s[0]] + s[1..];
    }
  }

  lemma {:induction false} ReplaceEmptyNothing(s: string)
    ensures ReplaceEmpty(s, []) == s
    decreases |s|
  {
    if s != [] {
      ReplaceEmptyNothing(s[1..]);
    }
  }

  /** Without an occurrence of the pattern nothing is replaced. */
  lemma {:induction false} ReplaceAbsent(s: string, pat: string, rep: string)
    requires pat != [] && !Occurs(s, pat)
    ensures ReplaceAll(s, pat, rep) == s
    decreases |s|
  {
    if |s| >= |pat| {
      OccursTail(s, pat);
      assert !MatchAt(s, pat, 0);
      ReplaceAbsent(s[1..], pat, rep);
      assert s == [s[0]] + s[1..];
    }
  }

  /** A present pattern replaced by something else changes the text. */
  lemma ReplaceChanges(s: string, pat: string, rep: string)
    requires pat != [] && rep != pat && Occurs(s, pat)
    ensures ReplaceAll(s, pat, rep) != s
  {
    if |rep| == |pat| {
      ReplaceChangesSameLength(s, pat, rep);
    } else {
      ReplaceAllLength(s, pat, rep);
      CountPositive(s, pat);
      NonzeroProduct(CountMatches(s, pat), |rep| - |pat|);
    }
  }

  lemma NonzeroProduct(a: int, b: int)
    requires a != 0 && b != 0
    ensures a * b != 0
  {
  }

  lemma {:induction false} ReplaceChangesSameLength(s: string, pat: string, rep: string)
    requires pat != [] && rep != pat && |rep| == |pat| && Occurs(s, pat)
    ensures ReplaceAll(s, pat, rep) != s
    decreases |s|
  {
    OccursTail(s, pat);
    var r := ReplaceAll(s, pat, rep);
    if s[..|pat|] == pat {
      assert r[..|rep|] == rep;
    } else {
      ReplaceChangesSameLength(s[1..], pat, rep);
      assert r[1..] == ReplaceAll(s[1..], pat, rep);
    }
  }

  /** A replacement leaves the text as it was exactly when there is nothing
      to do: the pattern is absent, or it is replaced by itself.  An empty
      pattern occurs everywhere, so only an empty replacement keeps the text. */
  lemma ReplaceUnchangedIff(s: string, pat: string, rep: string)
    ensures ReplaceAll(s, pat, rep) == s <==> (rep == pat || (pat != [] && !Occurs(s, pat)))
  {
    if rep == pat {
      ReplaceBySelf(s, pat);
    } else if pat == [] {
      ReplaceEmptyLength(s, rep);
      assert |rep| > 0;
      PositiveProduct(|s| + 1, |rep|);
    } else if Occurs(s, pat) {
      ReplaceChanges(s, pat, rep);
    } else {
      ReplaceAbsent(s, pat, rep);
    }
  }

  lemma PositiveProduct(a: int, b: int)
    requires a > 0 && b > 0
    ensures a * b > 0
  {
  }

  /** Where the pattern occurred, the replacement now occurs: it stands
      where the first occurrence stood. */
  lemma {:induction false} ReplaceInsertsReplacement(s: string, pat: string, rep: string)
    requires Occurs(s, pat)
    ensures Occurs(ReplaceAll(s, pat, rep), rep)
    decreases |s|
  {
    var r := ReplaceAll(s, pat, rep);
    if pat == [] {
      if s == [] {
        assert MatchAt(r, rep, 0);
      } else {
        assert r[..|rep|] == rep;
        assert MatchAt(r, rep, 0);
      }
    } else {
      OccursTail(s, pat);
      if s[..|pat|] == pat {
        assert r[..|rep|] == rep;
        assert MatchAt(r, rep, 0);
      } else {
        ReplaceInsertsReplacement(s[1..], pat, rep);
        OccursTail(r, rep);
        assert r[1..] == ReplaceAll(s[1..], pat, rep);
      }
    }
  }

  // ---------------------------------------------------------------------------
  // Replacements that cannot take part in an occurrence
  // ---------------------------------------------------------------------------

  /** One of `a` and `b` is a prefix of the other: a copy of `a` can be
      the start of an occurrence of `b` once text is appended, or the
      other way round. */
  predicate Compatible(a: string, b: string) {
    if |a| <= |b| then b[..|a|] == a else a[..|b|] == b
  }

  /** Compatible texts agree wherever both are defined. */
  lemma CompatibleAt(a: string, b: string, i: nat)
    requires Compatible(a, b) && i < |a| && i < |b|
    ensures a[i] == b[i]
  {
    if |a| <= |b| {
      assert b[..|a|][i] == b[i];
    } else {
      assert a[..|b|][i] == a[i];
    }
  }

  /** No occurrence of `q` can overlap a copy of `rep`: none starts inside
      it, and none that starts before it reaches into it. */
  predicate Isolated(rep: string, q: string) {
    && (forall k :: 0 <= k < |rep| ==> !Compatible(rep[k..], q))
    && (forall m :: 0 < m < |q| ==> !Compatible(q[m..], rep))
  }

  /** No `a` in `s` is directly followed by `b`. */
  predicate PairFree(s: string, a: char, b: char) {
    forall k :: 0 <= k < |s| - 1 ==> !(s[k] == a && s[k + 1] == b)
  }

  lemma PairFreeConcat(x: string, y: string, a: char, b: char)
    requires PairFree(x, a, b) && PairFree(y, a, b)
    requires x == [] || y == [] || x[|x| - 1] != a || y[0] != b
    ensures PairFree(x + y, a, b)
  {
    forall k | 0 <= k < |x + y| - 1
      ensures !((x + y)[k] == a && (x + y)[k + 1] == b)
    {
      if k < |x| - 1 {
        assert (x + y)[k] == x[k] && (x + y)[k + 1] == x[k + 1];
      } else if k >= |x| {
        assert (x + y)[k] == y[k - |x|] && (x + y)[k + 1] == y[k - |x| + 1];
      }
    }
  }

  /** `rep` and `q` cannot overlap when they differ at the start and
      neither holds, past its first character, the other's first two
      characters in a row (nor ends on the other's first character). */
  lemma IsolatedByPair(rep: string, q: string)
    requires |rep| >= 2 && |q| >= 2
    requires !Compatible(rep, q)
    requires PairFree(rep[1..], q[0], q[1]) && rep[|rep| - 1] != q[0]
    requires PairFree(q[1..], rep[0], rep[1]) && q[|q| - 1] != rep[0]
    ensures Isolated(rep, q)
  {
    forall k | 0 < k < |rep|
      ensures !Compatible(rep[k..], q)
    {
      CompatibleStart(rep[k..], q);
      assert rep[1..][k - 1] == rep[k];
      if k + 1 < |rep| {
        assert rep[1..][k] == rep[k + 1];
      }
    }
    forall m | 0 < m < |q|
      ensures !Compatible(q[m..], rep)
    {
      CompatibleStart(q[m..], rep);
      assert q[1..][m - 1] == q[m];
      if m + 1 < |q| {
        assert q[1..][m] == q[m + 1];
      }
    }
  }

  /** Compatible texts start alike. */
  lemma CompatibleStart(a: string, b: string)
    requires a != [] && |b| >= 2
    ensures Compatible(a, b) ==> a[0] == b[0] && (|a| >= 2 ==> a[1] == b[1])
  {
    if Compatible(a, b) {
      CompatibleAt(a, b, 0);
      if |a| >= 2 {
        CompatibleAt(a, b, 1);
      }
    }
  }

  /** Every occurrence of `q` in `w + s` lies in `s`, on an occurrence of
      `pat`. */
  ghost predicate OnlyOnPattern(w: string, s: string, q: string, pat: string) {
    forall i: nat :: MatchAt(w + s, q, i) ==> i >= |w| && MatchAt(s, pat, i - |w|)
  }

  lemma MatchInLeft(a: string, b: string, q: string, i: nat)
    requires MatchAt(a + b, q, i) && i + |q| <= |a|
    ensures MatchAt(a, q, i)
  {
    assert (a + b)[i..i + |q|] == a[i..i + |q|];
  }

  lemma MatchInRight(a: string, b: string, q: string, i: nat)
    requires MatchAt(a + b, q, i) && i >= |a|
    ensures MatchAt(b, q, i - |a|)
  {
    assert (a + b)[i..i + |q|] == b[i - |a|..i - |a| + |q|];
  }

  lemma MatchExtend(a: string, b: string, q: string, i: nat)
    requires MatchAt(a, q, i)
    ensures MatchAt(a + b, q, i)
  {
    assert (a + b)[i..i + |q|] == a[i..i + |q|];
  }

  lemma MatchShift(a: string, b: string, q: string, j: nat)
    requires MatchAt(b, q, j)
    ensures MatchAt(a + b, q, |a| + j)
  {
    assert (a + b)[|a| + j..|a| + j + |q|] == b[j..j + |q|];
  }

  /** An occurrence that starts in `a` and runs past it. */
  lemma MatchAcross(a: string, b: string, q: string, i: nat)
    requires MatchAt(a + b, q, i) && i < |a| < i + |q|
    ensures Compatible(q[|a| - i..], b)
  {
    var m := |a| - i;
    assert b[..|q| - m] == (a + b)[i..i + |q|][m..];
  }

  /** An occurrence that starts in `a`. */
  lemma MatchFromLeft(a: string, b: string, q: string, i: nat)
    requires MatchAt(a + b, q, i) && i < |a|
    ensures Compatible(a[i..], q)
  {
    if |a| - i <= |q| {
      assert q[..|a| - i] == (a + b)[i..i + |q|][..|a| - i];
    } else {
      assert a[i..][..|q|] == (a + b)[i..i + |q|];
    }
  }

  lemma CompatibleTrim(a: string, b: string, c: string)
    requires Compatible(a, b + c)
    ensures Compatible(a, b)
  {
    if |b| < |a| <= |b + c| {
      assert a[..|b|] == (b + c)[..|a|][..|b|];
    } else if |a| > |b + c| {
      assert a[..|b|] == a[..|b + c|][..|b|];
    }
  }

  /** Replacing `pat` by a text that no occurrence of `q` can overlap
      leaves no occurrence of `q`, when every occurrence of `q` was on an
      occurrence of `pat` (`w` is the text already emitted). */
  lemma {:induction false} ReplaceLeavesNoMatch(w: string, s: string, pat: string, rep: string, q: string)
    requires pat != [] && q != []
    requires Isolated(rep, q)
    requires OnlyOnPattern(w, s, q, pat)
    ensures !Occurs(w + ReplaceAll(s, pat, rep), q)
    decreases |s|
  {
    if |s| < |pat| {
    } else if s[..|pat|] == pat {
      var rest := s[|pat|..];
      assert s == pat + rest;
      OnlyOnPatternPastCopy(w, rep, rest, pat, q);
      ReplaceLeavesNoMatch(w + rep, rest, pat, rep, q);
      assert w + ReplaceAll(s, pat, rep) == (w + rep) + ReplaceAll(rest, pat, rep);
    } else {
      OnlyOnPatternPastChar(w, s, pat, q);
      ReplaceLeavesNoMatch(w + [s[0]], s[1..], pat, rep, q);
      assert w + ReplaceAll(s, pat, rep) == (w + [s[0]]) + ReplaceAll(s[1..], pat, rep);
    }
  }

  /** Past a character that does not start `pat`. */
  lemma OnlyOnPatternPastChar(w: string, s: string, pat: string, q: string)
    requires |s| >= |pat| && s != [] && s[..|pat|] != pat
    requires OnlyOnPattern(w, s, q, pat)
    ensures OnlyOnPattern(w + [s[0]], s[1..], q, pat)
  {
    forall i: nat | MatchAt(w + [s[0]] + s[1..], q, i)
      ensures i >= |w| + 1 && MatchAt(s[1..], pat, i - |w| - 1)
    {
      assert w + [s[0]] + s[1..] == w + s;
      MatchInRight([s[0]], s[1..], pat, i - |w|);
    }
  }

  /** Past an occurrence of `pat` that was replaced by `rep`. */
  lemma OnlyOnPatternPastCopy(w: string, rep: string, rest: string, pat: string, q: string)
    requires q != [] && Isolated(rep, q)
    requires OnlyOnPattern(w, pat + rest, q, pat)
    ensures OnlyOnPattern(w + rep, rest, q, pat)
  {
    forall i: nat | MatchAt(w + rep + rest, q, i)
      ensures i >= |w + rep| && MatchAt(rest, pat, i - |w + rep|)
    {
      OnlyOnPatternStep(w, rep, rest, pat, q, i);
    }
  }

  /** The step of ReplaceLeavesNoMatch past a replaced occurrence: an
      occurrence of `q` after `w + rep` is one that was after `w + pat`. */
  lemma OnlyOnPatternStep(w: string, rep: string, rest: string, pat: string, q: string, i: nat)
    requires q != [] && Isolated(rep, q)
    requires OnlyOnPattern(w, pat + rest, q, pat)
    requires MatchAt(w + rep + rest, q, i)
    ensures i >= |w + rep| && MatchAt(rest, pat, i - |w + rep|)
  {
    var s := pat + rest;
    if i + |q| <= |w| {
      MatchInLeft(w, rep + rest, q, i);
      MatchExtend(w, s, q, i);
      assert false;
    } else if i < |w| {
      assert w + rep + rest == w + (rep + rest);
      MatchAcross(w, rep + rest, q, i);
      CompatibleTrim(q[|w| - i..], rep, rest);
      assert false;
    } else if i < |w| + |rep| {
      assert w + rep + rest == w + (rep + rest);
      MatchInRight(w, rep + rest, q, i);
      MatchFromLeft(rep, rest, q, i - |w|);
      assert false;
    } else {
      MatchInRight(w + rep, rest, q, i);
      var j := i - |w + rep|;
      MatchShift(w + pat, rest, q, j);
      assert w + pat + rest == w + s;
      MatchInRight(pat, rest, pat, |pat| + j);
    }
  }

  /** `s.replace(pat, rep)` with a `rep` that cannot overlap `pat` leaves
      no occurrence of `pat`. */
  lemma ReplaceRemoves(s: string, pat: string, rep: string)
    requires pat != [] && Isolated(rep, pat)
    ensures !Occurs(ReplaceAll(s, pat, rep), pat)
  {
    assert [] + s == s;
    ReplaceLeavesNoMatch([], s, pat, rep, pat);
    assert [] + ReplaceAll(s, pat, rep) == ReplaceAll(s, pat, rep);
  }

  /** A text `q` that does not occur stays absent when another pattern is
      replaced by a text no occurrence of `q` can overlap. */
  lemma ReplaceKeepsAbsent(s: string, pat: string, rep: string, q: string)
    requires pat != [] && q != [] && Isolated(rep, q) && !Occurs(s, q)
    ensures !Occurs(ReplaceAll(s, pat, rep), q)
  {
    assert [] + s == s;
    forall i: nat | MatchAt([] + s, q, i)
      ensures false
    {
    }
    ReplaceLeavesNoMatch([], s, pat, rep, q);
    assert [] + ReplaceAll(s, pat, rep) == ReplaceAll(s, pat, rep);
  }

  /** A text that contains `q` occurs only where `q` does. */
  lemma OccursLonger(s: string, q: string, tail: string)
    requires Occurs(s, q + tail)
    ensures Occurs(s, q)
  {
    var i: nat :| i <= |s| && MatchAt(s, q + tail, i);
    assert s[i..i + |q|] == (q + tail)[..|q|];
    assert MatchAt(s, q, i);
  }

  // ---------------------------------------------------------------------------
  // `s.split(sep)` and `sep.join(parts)` for a one-character separator
  // ---------------------------------------------------------------------------

  /** `s.split(sep)`: the maximal runs between separators, in order; an
      empty string gives one empty part. */
  function Split(s: string, sep: char): (parts: seq<string>)
    ensures |parts| >= 1
    decreases |s|
  {
    if s == [] then [[]]
    else
      var init := Split(s[..|s| - 1], sep);
      var c := s[|s| - 1];
      if c == sep then init + [[]]
      else init[..|init| - 1] + [init[|init| - 1] + [c]]
  }

  /** `sep.join(parts)` */
  function Join(parts: seq<string>, sep: char): string
    decreases |parts|
  {
    if |parts| == 0 then []
    else if |parts| == 1 then parts[0]
    else Join(parts[..|parts| - 1], sep) + [sep] + parts[|parts| - 1]
  }

  /** Joining the parts of a split gives back the string. */
  lemma {:induction false} JoinSplit(s: string, sep: char)
    ensures Join(Split(s, sep), sep) == s
    decreases |s|
  {
    if s != [] {
      var front := s[..|s| - 1];
      var c := s[|s| - 1];
      assert s == front + [c];
      var init := Split(front, sep);
      JoinSplit(front, sep);
      if c == sep {
        JoinSnoc(init, [], sep);
      } else {
        JoinExtendLast(init, c, sep);
      }
    }
  }

  /** Extending the last part extends the join. */
  lemma JoinExtendLast(parts: seq<string>, c: char, sep: char)
    requires |parts| >= 1
    ensures var k := |parts| - 1;
      Join(parts[..k] + [parts[k] + [c]], sep) == Join(parts, sep) + [c]
  {
    var k := |parts| - 1;
    var ext := parts[..k] + [parts[k] + [c]];
    if k > 0 {
      assert ext[..k] == parts[..k];
      assert ext[k] == parts[k] + [c];
      calc {
        Join(ext, sep);
        Join(parts[..k], sep) + [sep] + (parts[k] + [c]);
        (Join(parts[..k], sep) + [sep] + parts[k]) + [c];
        Join(parts, sep) + [c];
      }
    }
  }

  /** No part holds the separator. */
  lemma {:induction false} SplitPartsPlain(s: string, sep: char)
    ensures var p := Split(s, sep); forall k :: 0 <= k < |p| ==> sep !in p[k]
    decreases |s|
  {
    if s != [] {
      var front := s[..|s| - 1];
      var c := s[|s| - 1];
      SplitPartsPlain(front, sep);
      assert s == front + [c];
      SplitSnoc(front, c, sep);
    }
  }

  /** One more character either starts a new part or extends the last. */
  lemma SplitSnoc(s: string, c: char, sep: char)
    ensures var p := Split(s, sep);
      Split(s + [c], sep) == if c == sep then p + [[]] else p[..|p| - 1] + [p[|p| - 1] + [c]]
  {
    assert (s + [c])[..|s|] == s;
  }

  /** Appending text without a separator extends the last part. */
  lemma {:induction false} SplitAppendPlain(a: string, b: string, sep: char)
    requires sep !in b
    ensures var p := Split(a, sep);
      Split(a + b, sep) == p[..|p| - 1] + [p[|p| - 1] + b]
    decreases |b|
  {
    var p := Split(a, sep);
    if b == [] {
      assert a + b == a;
      ExtendLastByNothing(p);
    } else {
      var b' := b[..|b| - 1];
      var c := b[|b| - 1];
      assert b == b' + [c];
      SplitAppendPlain(a, b', sep);
      SplitAppendPlainStep(a, b', c, sep);
      assert a + b == (a + b') + [c];
    }
  }

  lemma ExtendLastByNothing(p: seq<string>)
    requires |p| >= 1
    ensures p[..|p| - 1] + [p[|p| - 1] + []] == p
  {
    assert p[|p| - 1] + [] == p[|p| - 1];
  }

  /** The inductive step of SplitAppendPlain. */
  lemma SplitAppendPlainStep(a: string, b: string, c: char, sep: char)
    requires c != sep
    requires var p := Split(a, sep);
      Split(a + b, sep) == p[..|p| - 1] + [p[|p| - 1] + b]
    ensures var p := Split(a, sep);
      Split(a + b + [c], sep) == p[..|p| - 1] + [p[|p| - 1] + (b + [c])]
  {
    var p := Split(a, sep);
    var q := Split(a + b, sep);
    SplitSnoc(a + b, c, sep);
    ExtendLastTwice(p, b, c);
  }

  lemma ExtendLastTwice(p: seq<string>, b: string, c: char)
    requires |p| >= 1
    ensures var q := p[..|p| - 1] + [p[|p| - 1] + b];
      q[..|q| - 1] + [q[|q| - 1] + [c]] == p[..|p| - 1] + [p[|p| - 1] + (b + [c])]
  {
    var q := p[..|p| - 1] + [p[|p| - 1] + b];
    assert q[..|q| - 1] == p[..|p| - 1];
    assert q[|q| - 1] + [c] == p[|p| - 1] + (b + [c]);
  }

  /** Appending a separator and then a separator-free part adds that part. */
  lemma SplitAppendPart(a: string, b: string, sep: char)
    requires sep !in b
    ensures Split(a + [sep] + b, sep) == Split(a, sep) + [b]
  {
    var p := Split(a, sep) + [[]];
    SplitSnoc(a, sep, sep);
    SplitAppendPlain(a + [sep], b, sep);
    assert p[..|p| - 1] == Split(a, sep);
    assert [] + b == b;
  }

  /** A separator-free string is a single part. */
  lemma SplitPlain(a: string, sep: char)
    requires sep !in a
    ensures Split(a, sep) == [a]
  {
    SplitAppendPlain([], a, sep);
    assert [] + a == a;
  }

  /** A separator-free first part followed by a separator splits off first. */
  lemma {:induction false} SplitFirst(a: string, b: string, sep: char)
    requires sep !in a
    ensures Split(a + [sep] + b, sep) == [a] + Split(b, sep)
    decreases |b|
  {
    if b == [] {
      SplitPlain(a, sep);
      SplitAppendPart(a, [], sep);
      assert a + [sep] + b == a + [sep] + [];
    } else {
      var b' := b[..|b| - 1];
      var c := b[|b| - 1];
      SplitFirst(a, b', sep);
      SplitFirstStep(a, b', c, sep);
      assert a + [sep] + b == (a + [sep] + b') + [c];
      assert b == b' + [c];
    }
  }

  /** The inductive step of SplitFirst: one more character at the end. */
  lemma SplitFirstStep(a: string, b: string, c: char, sep: char)
    requires Split(a + [sep] + b, sep) == [a] + Split(b, sep)
    ensures Split(a + [sep] + b + [c], sep) == [a] + Split(b + [c], sep)
  {
    var l := a + [sep] + b;
    var q := Split(b, sep);
    SplitSnoc(l, c, sep);
    SplitSnoc(b, c, sep);
    if c != sep {
      ExtendLastOfCons(a, q, c);
    }
  }

  /** Extending the last part of `[a] + q` extends the last part of `q`. */
  lemma ExtendLastOfCons(a: string, q: seq<string>, c: char)
    requires |q| >= 1
    ensures var pl := [a] + q;
      pl[..|pl| - 1] + [pl[|pl| - 1] + [c]] == [a] + (q[..|q| - 1] + [q[|q| - 1] + [c]])
  {
    var pl := [a] + q;
    assert pl[..|pl| - 1] == [a] + q[..|q| - 1];
  }

  /** Splitting a join gives back the parts, when no part holds the
      separator. */
  lemma {:induction false} SplitJoin(parts: seq<string>, sep: char)
    requires |parts| >= 1
    requires forall k :: 0 <= k < |parts| ==> sep !in parts[k]
    ensures Split(Join(parts, sep), sep) == parts
    decreases |parts|
  {
    if |parts| == 1 {
      SplitPlain(parts[0], sep);
    } else {
      var n := |parts|;
      var init := parts[..n - 1];
      SplitJoin(init, sep);
      assert Join(parts, sep) == Join(init, sep) + [sep] + parts[n - 1];
      SplitAppendPart(Join(init, sep), parts[n - 1], sep);
      assert init + [parts[n - 1]] == parts;
    }
  }

  /** Splitting the join of the first `m` parts of a split gives those
      parts back. */
  lemma SplitJoinPrefix(s: string, sep: char, m: nat)
    requires 1 <= m <= |Split(s, sep)|
    ensures Split(Join(Split(s, sep)[..m], sep), sep) == Split(s, sep)[..m]
  {
    var p := Split(s, sep);
    SplitPartsPlain(s, sep);
    forall k | 0 <= k < m
      ensures sep !in p[..m][k]
    {
      assert p[..m][k] == p[k];
    }
    SplitJoin(p[..m], sep);
  }

  /** Joining one more part appends the separator and that part. */
  lemma JoinSnoc(parts: seq<string>, last: string, sep: char)
    requires |parts| >= 1
    ensures Join(parts + [last], sep) == Join(parts, sep) + [sep] + last
  {
    assert (parts + [last])[..|parts|] == parts;
  }
}
