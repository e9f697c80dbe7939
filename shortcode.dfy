/**
 * The block pattern that every diagram and script helper rewrites with one `replace_all`:
 *
 *     (?ms)\{\{#TAG\s+(?P<spec>.*?)\}\}   replaced by   PREFIX $spec SUFFIX
 *
 * modelled as an explicit scanner over the text. The scanner tries each position from the
 * left; where the pattern matches it emits the wrapper and resumes after the closing `}}`,
 * elsewhere it copies one character. `MatchedFrom` lists the matches the scan finds,
 * `Scanned` says declaratively what the leftmost, non-overlapping list of matches is, and
 * `SpliceFrom` builds the output from such a list. All positions are indices into the
 * whole text.
 */
module Shortcode {
  import opened Wrappers

  /** `\s` of the regex crate in Unicode mode: the characters with the White_Space property. */
  predicate IsSpace(c: char) {
    || c == '\t' || c == '\n' || c == '\U{0B}' || c == '\U{0C}' || c == '\r' || c == ' '
    || c == '\U{85}' || c == '\U{A0}' || c == '\U{1680}' || ('\U{2000}' <= c <= '\U{200A}')
    || c == '\U{2028}' || c == '\U{2029}' || c == '\U{202F}' || c == '\U{205F}' || c == '\U{3000}'
  }

  /** The literal text a block of kind `tag` starts with. */
  function Opener(tag: string): string {
    "{{#" + tag
  }

  /** The opener of kind tag starts at index i of s. */
  predicate OpensAt(tag: string, s: string, i: nat) {
    i + |Opener(tag)| <= |s| && forall k :: 0 <= k < |Opener(tag)| ==> s[i + k] == Opener(tag)[k]
  }

  /** A closing `}}` starts at index k of s. */
  predicate ClosesAt(s: string, k: int) {
    0 <= k && k + 1 < |s| && s[k] == '}' && s[k + 1] == '}'
  }

  /** s contains `}}` somewhere. */
  ghost predicate HasClose(s: string) {
    exists k :: ClosesAt(s, k)
  }

  /** One match: it starts at `start`, its spec is s[specStart..specEnd], the closing `}}`
      sits at specEnd, and the match ends at specEnd + 2. */
  datatype Match = Match(start: nat, specStart: nat, specEnd: nat) {
    function End(): nat {
      specEnd + 2
    }
  }

  /** The pattern matches at index i of s (whichever match the engine would prefer): the
      opener, at least one whitespace character, then anything up to a `}}`. */
  ghost predicate MatchesAt(tag: string, s: string, i: nat) {
    var n := i + |Opener(tag)|;
    && n < |s| && OpensAt(tag, s, i) && IsSpace(s[n])
    && exists k :: n < k && ClosesAt(s, k)
  }

  /** m is the match the engine reports where it starts. `\s+` is greedy, so the spec starts
      at the first character after the opener that is not whitespace; `.*?` is lazy, so the
      spec stops at the first `}}` after that. Newlines are ordinary characters (flag `s`). */
  ghost predicate IsMatch(tag: string, s: string, m: Match) {
    var n := m.start + |Opener(tag)|;
    && n < m.specStart <= m.specEnd && m.End() <= |s|
    && OpensAt(tag, s, m.start)
    && (forall p :: n <= p < m.specStart ==> IsSpace(s[p]))
    && !IsSpace(s[m.specStart])
    && ClosesAt(s, m.specEnd)
    && (forall p :: m.specStart <= p < m.specEnd ==> !ClosesAt(s, p))
  }

  /** No position of s starts a match. */
  ghost predicate NoBlock(tag: string, s: string) {
    forall p :: 0 <= p < |s| ==> !MatchesAt(tag, s, p)
  }

  /** The end of the maximal whitespace run of s that starts at i. */
  function SpaceRunEnd(s: string, i: nat): (j: nat)
    requires i <= |s|
    ensures i <= j <= |s|
    decreases |s| - i
  {
    if i < |s| && IsSpace(s[i]) then SpaceRunEnd(s, i + 1) else i
  }

  /** The run is whitespace and cannot be extended. */
  lemma {:induction false} SpaceRunEndIsMaximal(s: string, i: nat)
    requires i <= |s|
    ensures forall p :: i <= p < SpaceRunEnd(s, i) ==> IsSpace(s[p])
    ensures SpaceRunEnd(s, i) == |s| || !IsSpace(s[SpaceRunEnd(s, i)])
    decreases |s| - i
  {
    if i < |s| && IsSpace(s[i]) {
      SpaceRunEndIsMaximal(s, i + 1);
    }
  }

  /** The first `}}` of s at or after j, if there is one. */
  function FindClose(s: string, j: nat): (r: Option<nat>)
    requires j <= |s|
    ensures r.Some? ==> j <= r.value && r.value + 2 <= |s|
    decreases |s| - j
  {
    if j + 1 >= |s| then None
    else if s[j] == '}' && s[j + 1] == '}' then Some(j)
    else FindClose(s, j + 1)
  }

  /** FindClose finds the first `}}` at or after j, and reports none only if there is none. */
  lemma {:induction false} FindCloseIsFirst(s: string, j: nat)
    requires j <= |s|
    ensures FindClose(s, j).Some? ==> ClosesAt(s, FindClose(s, j).value)
    ensures forall p :: j <= p && (FindClose(s, j).None? || p < FindClose(s, j).value) ==> !ClosesAt(s, p)
    decreases |s| - j
  {
    if j + 1 < |s| && !(s[j] == '}' && s[j + 1] == '}') {
      FindCloseIsFirst(s, j + 1);
    }
  }

  /** Every `}}` after index n of s lies at or after the end j of the whitespace run at n. */
  lemma ClosesAfterSpaceRun(s: string, n: nat, j: nat)
    requires n <= j <= |s|
    requires forall p :: n <= p < j ==> IsSpace(s[p])
    ensures forall k :: n <= k && ClosesAt(s, k) ==> j <= k
  {
    forall k | n <= k && ClosesAt(s, k) ensures j <= k {
      assert !IsSpace(s[k]);
    }
  }

  /** The match of the pattern at index i of s, if any: the opener and a whitespace run,
      then the spec up to the first `}}` after the run. */
  function MatchAt(tag: string, s: string, i: nat): (r: Option<Match>)
    requires i <= |s|
    ensures r.Some? ==> r.value.start == i && i <= r.value.specStart <= r.value.specEnd
    ensures r.Some? ==> r.value.End() <= |s|
  {
    var n := i + |Opener(tag)|;
    if n < |s| && OpensAt(tag, s, i) && IsSpace(s[n]) then
      var j := SpaceRunEnd(s, n);
      match FindClose(s, j)
      case Some(k) => Some(Match(i, j, k))
      case None => None
    else None
  }

  /** MatchAt finds a match exactly when the pattern's language has one at index i, and then
      it is the one the engine prefers. */
  lemma MatchAtIsPreferred(tag: string, s: string, i: nat)
    requires i <= |s|
    ensures MatchAt(tag, s, i).Some? <==> MatchesAt(tag, s, i)
    ensures MatchAt(tag, s, i).Some? ==> IsMatch(tag, s, MatchAt(tag, s, i).value)
  {
    var n := i + |Opener(tag)|;
    if n < |s| && OpensAt(tag, s, i) && IsSpace(s[n]) {
      var j := SpaceRunEnd(s, n);
      SpaceRunEndIsMaximal(s, n);
      FindCloseIsFirst(s, j);
      ClosesAfterSpaceRun(s, n, j);
    }
  }

  // ---------------------------------------------------------------------------------------
  // replace_all: collect the leftmost, non-overlapping matches, then splice them

  /** Matches that lie inside s, in order, from index i on, none overlapping the next. */
  predicate Ordered(s: string, ms: seq<Match>, i: nat)
    decreases ms
  {
    && i <= |s|
    && (ms != [] ==>
          && i <= ms[0].start <= ms[0].specStart <= ms[0].specEnd
          && ms[0].End() <= |s|
          && Ordered(s, ms[1..], ms[0].End()))
  }

  /** The matches the scan finds in s from index i on, left to right: where the pattern
      matches, the match is taken and the scan resumes after its `}}`; elsewhere it moves
      on by one character. They lie inside s, in order and without overlap. */
  function MatchedFrom(tag: string, s: string, i: nat): (ms: seq<Match>)
    requires i <= |s|
    decreases |s| - i
  {
    if i == |s| then []
    else match MatchAt(tag, s, i)
      case Some(m) => [m] + MatchedFrom(tag, s, m.End())
      case None => MatchedFrom(tag, s, i + 1)
  }

  /** The scan's matches lie inside the text, in order and without overlap. */
  lemma {:induction false} MatchedOrdered(tag: string, s: string, i: nat)
    requires i <= |s|
    ensures Ordered(s, MatchedFrom(tag, s, i), i)
    decreases |s| - i
  {
    if i < |s| {
      match MatchAt(tag, s, i)
      case Some(m) =>
        MatchedOrdered(tag, s, m.End());
        var ms := [m] + MatchedFrom(tag, s, m.End());
        assert ms[0] == m && ms[1..] == MatchedFrom(tag, s, m.End());
      case None =>
        MatchedOrdered(tag, s, i + 1);
    }
  }

  /** The replacement of one match: its spec between prefix and suffix. */
  function Wrap(prefix: string, suffix: string, s: string, m: Match): string
    requires m.specStart <= m.specEnd <= |s|
  {
    prefix + s[m.specStart..m.specEnd] + suffix
  }

  /** The output built from a list of matches: the text from i up to the next match is
      copied, the match is replaced by its wrapped spec, and after the last match the rest
      of the text is copied. */
  function SpliceFrom(prefix: string, suffix: string, s: string, ms: seq<Match>, i: nat): string
    requires Ordered(s, ms, i)
    decreases |ms|
  {
    if ms == [] then s[i..]
    else
      s[i..ms[0].start] + Wrap(prefix, suffix, s, ms[0])
      + SpliceFrom(prefix, suffix, s, ms[1..], ms[0].End())
  }

  /** `replace_all` of the pattern over s from index i on: the text around the matches the
      scan finds is copied and each match becomes prefix + its spec + suffix. */
  function RenderFrom(tag: string, prefix: string, suffix: string, s: string, i: nat): string
    requires i <= |s|
  {
    MatchedOrdered(tag, s, i);
    SpliceFrom(prefix, suffix, s, MatchedFrom(tag, s, i), i)
  }

  /** `replace_all` of the pattern over the whole of s. */
  function RenderBlocks(tag: string, prefix: string, suffix: string, s: string): string {
    RenderFrom(tag, prefix, suffix, s, 0)
  }

  /** How much longer the output is than the input: per match, the wrapper's length minus
      what the match drops (the match's length less its spec's length). */
  function Growth(ms: seq<Match>, wrapper: nat): int
  {
    if ms == [] then 0
    else wrapper - ((ms[0].End() - ms[0].start) - (ms[0].specEnd - ms[0].specStart))
         + Growth(ms[1..], wrapper)
  }

  /** ms is THE list of leftmost, non-overlapping matches of s from index i on: the first
      match is the preferred one at the leftmost position where the pattern matches at all,
      and the rest is the same for the text after its closing `}}`. */
  ghost predicate Scanned(tag: string, s: string, i: nat, ms: seq<Match>)
    decreases ms
  {
    && i <= |s|
    && if ms == [] then
         forall p :: i <= p < |s| ==> !MatchesAt(tag, s, p)
       else
         && i <= ms[0].start < |s|
         && (forall p :: i <= p < ms[0].start ==> !MatchesAt(tag, s, p))
         && IsMatch(tag, s, ms[0])
         && Scanned(tag, s, ms[0].End(), ms[1..])
  }

  // ---------------------------------------------------------------------------------------
  // The scan is the leftmost, non-overlapping list of matches

  /** The preferred match is a match. */
  lemma MatchIsMatchesAt(tag: string, s: string, m: Match)
    requires IsMatch(tag, s, m)
    ensures MatchesAt(tag, s, m.start)
  {
    assert m.start + |Opener(tag)| < m.specEnd && ClosesAt(s, m.specEnd);
  }

  /** There is at most one preferred match at a position. */
  lemma MatchUnique(tag: string, s: string, m1: Match, m2: Match)
    requires IsMatch(tag, s, m1) && IsMatch(tag, s, m2) && m1.start == m2.start
    ensures m1 == m2
  {
  }

  /** MatchAt reports every preferred match. */
  lemma MatchAtFinds(tag: string, s: string, m: Match)
    requires IsMatch(tag, s, m)
    ensures MatchAt(tag, s, m.start) == Some(m)
  {
    MatchIsMatchesAt(tag, s, m);
    MatchAtIsPreferred(tag, s, m.start);
    MatchUnique(tag, s, MatchAt(tag, s, m.start).value, m);
  }

  /** A leftmost list of matches starts at or before every position where the pattern matches. */
  lemma {:induction false} ScannedFirst(tag: string, s: string, i: nat, ms: seq<Match>, p: nat)
    requires Scanned(tag, s, i, ms)
    requires i <= p < |s| && MatchesAt(tag, s, p)
    ensures ms != [] && ms[0].start <= p
  {
  }

  /** A match at i, followed by a leftmost scan after its `}}`, is a leftmost scan from i. */
  lemma ScannedAtMatch(tag: string, s: string, i: nat, m: Match, rest: seq<Match>)
    requires i < |s| && MatchAt(tag, s, i) == Some(m)
    requires Scanned(tag, s, m.End(), rest)
    ensures Scanned(tag, s, i, [m] + rest)
  {
    MatchAtIsPreferred(tag, s, i);
    var ms := [m] + rest;
    assert ms[0] == m && ms[1..] == rest;
  }

  /** A leftmost scan from i + 1 where no match starts at i is a leftmost scan from i. */
  lemma ScannedAtNoMatch(tag: string, s: string, i: nat, ms: seq<Match>)
    requires i < |s| && MatchAt(tag, s, i).None?
    requires Scanned(tag, s, i + 1, ms)
    ensures Scanned(tag, s, i, ms)
  {
    MatchAtIsPreferred(tag, s, i);
  }

  /** The scan finds the leftmost, non-overlapping matches. */
  lemma {:induction false} MatchedFromScanned(tag: string, s: string, i: nat)
    requires i <= |s|
    ensures Scanned(tag, s, i, MatchedFrom(tag, s, i))
    decreases |s| - i
  {
    if i < |s| {
      match MatchAt(tag, s, i)
      case Some(m) =>
        MatchedFromScanned(tag, s, m.End());
        ScannedAtMatch(tag, s, i, m, MatchedFrom(tag, s, m.End()));
      case None =>
        MatchedFromScanned(tag, s, i + 1);
        ScannedAtNoMatch(tag, s, i, MatchedFrom(tag, s, i + 1));
    }
  }

  /** A leftmost scan has a match no later than where another leftmost scan's first match
      starts. */
  lemma ScannedHeadBefore(tag: string, s: string, i: nat, a: seq<Match>, b: seq<Match>)
    requires Scanned(tag, s, i, a) && Scanned(tag, s, i, b) && a != []
    ensures b != [] && b[0].start <= a[0].start
  {
    MatchIsMatchesAt(tag, s, a[0]);
    ScannedFirst(tag, s, i, b, a[0].start);
  }

  /** Two leftmost scans from the same position start with the same match. */
  lemma ScannedHeads(tag: string, s: string, i: nat, a: seq<Match>, b: seq<Match>)
    requires Scanned(tag, s, i, a) && Scanned(tag, s, i, b)
    ensures a != [] ==> b != [] && a[0] == b[0]
  {
    if a != [] {
      ScannedHeadBefore(tag, s, i, a, b);
      ScannedHeadBefore(tag, s, i, b, a);
      MatchUnique(tag, s, a[0], b[0]);
    }
  }

  /** The leftmost, non-overlapping list of matches is unique. */
  lemma {:induction false} ScannedUnique(tag: string, s: string, i: nat, a: seq<Match>, b: seq<Match>)
    requires Scanned(tag, s, i, a) && Scanned(tag, s, i, b)
    ensures a == b
    decreases a
  {
    ScannedHeads(tag, s, i, a, b);
    ScannedHeads(tag, s, i, b, a);
    if a != [] {
      ScannedUnique(tag, s, a[0].End(), a[1..], b[1..]);
      assert a == [a[0]] + a[1..] && b == [b[0]] + b[1..];
    }
  }

  /** A leftmost, non-overlapping list of matches is what the scan finds. */
  lemma ScanIsMatched(tag: string, s: string, i: nat, ms: seq<Match>)
    requires i <= |s| && Scanned(tag, s, i, ms)
    ensures MatchedFrom(tag, s, i) == ms
  {
    MatchedFromScanned(tag, s, i);
    ScannedUnique(tag, s, i, ms, MatchedFrom(tag, s, i));
  }

  /** The scan's matches are the only list of leftmost, non-overlapping matches. */
  lemma MatchedFromIsTheScan(tag: string, s: string, i: nat, ms: seq<Match>)
    requires i <= |s|
    ensures Scanned(tag, s, i, ms) <==> ms == MatchedFrom(tag, s, i)
  {
    MatchedFromScanned(tag, s, i);
    if Scanned(tag, s, i, ms) {
      ScannedUnique(tag, s, i, ms, MatchedFrom(tag, s, i));
    }
  }

  /** The scan finds no match exactly when no position starts one. */
  lemma MatchedNoneIff(tag: string, s: string)
    ensures MatchedFrom(tag, s, 0) == [] <==> NoBlock(tag, s)
  {
    var ms := MatchedFrom(tag, s, 0);
    MatchedFromScanned(tag, s, 0);
    if ms != [] {
      MatchIsMatchesAt(tag, s, ms[0]);
    }
  }

  /** The scan where a match starts: that match, then the scan after its `}}`. */
  lemma MatchedAtMatch(tag: string, s: string, i: nat, m: Match)
    requires i < |s| && MatchAt(tag, s, i) == Some(m)
    ensures MatchedFrom(tag, s, i) == [m] + MatchedFrom(tag, s, m.End())
    ensures MatchedFrom(tag, s, i)[0] == m
    ensures MatchedFrom(tag, s, i)[1..] == MatchedFrom(tag, s, m.End())
  {
  }

  /** Positions that start no match are passed over by the scan. */
  lemma {:induction false} MatchedSkips(tag: string, s: string, i: nat, j: nat)
    requires i <= j <= |s|
    requires forall k :: i <= k < j ==> !MatchesAt(tag, s, k)
    ensures MatchedFrom(tag, s, i) == MatchedFrom(tag, s, j)
    decreases j - i
  {
    if i < j {
      MatchAtIsPreferred(tag, s, i);
      MatchedSkips(tag, s, i + 1, j);
    }
  }

  // ---------------------------------------------------------------------------------------
  // Splicing

  /** The splice is as long as the text plus the growth of every match. */
  lemma {:induction false} SpliceLength(prefix: string, suffix: string, s: string, ms: seq<Match>, i: nat)
    requires Ordered(s, ms, i)
    ensures |SpliceFrom(prefix, suffix, s, ms, i)| == |s| - i + Growth(ms, |prefix| + |suffix|)
    decreases |ms|
  {
    if ms != [] {
      SpliceLength(prefix, suffix, s, ms[1..], ms[0].End());
    }
  }

  /** Up to the first match the splice copies the text, and where the match starts it has the
      first character of the prefix. */
  lemma SpliceAtFirstMatch(prefix: string, suffix: string, s: string, ms: seq<Match>, i: nat)
    requires prefix != []
    requires Ordered(s, ms, i) && ms != []
    ensures ms[0].start - i < |SpliceFrom(prefix, suffix, s, ms, i)|
    ensures SpliceFrom(prefix, suffix, s, ms, i)[ms[0].start - i] == prefix[0]
  {
    var gap := s[i..ms[0].start];
    var w := Wrap(prefix, suffix, s, ms[0]);
    var r := SpliceFrom(prefix, suffix, s, ms[1..], ms[0].End());
    assert SpliceFrom(prefix, suffix, s, ms, i) == gap + w + r;
    assert (gap + w)[|gap|] == w[0] == prefix[0];
  }

  /** Every match starts with `{`. */
  lemma MatchStartsWithBrace(tag: string, s: string, m: Match)
    requires IsMatch(tag, s, m)
    ensures s[m.start] == '{'
  {
    assert s[m.start + 0] == Opener(tag)[0];
  }

  /** The laws every instance of the rewriter obeys: the text comes back unchanged exactly
      when it holds no block; the output grows by the growth of the matched blocks; and the
      matches spliced are the leftmost, non-overlapping ones. */
  lemma RenderLaws(tag: string, prefix: string, suffix: string, s: string)
    requires prefix != [] && prefix[0] != '{'
    ensures RenderBlocks(tag, prefix, suffix, s) == s <==> NoBlock(tag, s)
    ensures |RenderBlocks(tag, prefix, suffix, s)|
         == |s| + Growth(MatchedFrom(tag, s, 0), |prefix| + |suffix|)
    ensures Scanned(tag, s, 0, MatchedFrom(tag, s, 0))
  {
    var ms := MatchedFrom(tag, s, 0);
    MatchedFromScanned(tag, s, 0);
    MatchedOrdered(tag, s, 0);
    assert RenderBlocks(tag, prefix, suffix, s) == SpliceFrom(prefix, suffix, s, ms, 0);
    SpliceLength(prefix, suffix, s, ms, 0);
    MatchedNoneIff(tag, s);
    if ms != [] {
      MatchStartsWithBrace(tag, s, ms[0]);
      SpliceAtFirstMatch(prefix, suffix, s, ms, 0);
    } else {
      assert s[0..] == s;
    }
  }

  /** Where a match starts, the splice emits its wrapped spec and goes on after its `}}`. */
  lemma SpliceAtMatch(prefix: string, suffix: string, s: string, ms: seq<Match>, i: nat)
    requires Ordered(s, ms, i) && ms != [] && ms[0].start == i
    ensures SpliceFrom(prefix, suffix, s, ms, i)
         == Wrap(prefix, suffix, s, ms[0]) + SpliceFrom(prefix, suffix, s, ms[1..], ms[0].End())
  {
    assert s[i..ms[0].start] == [];
    assert [] + Wrap(prefix, suffix, s, ms[0]) == Wrap(prefix, suffix, s, ms[0]);
  }

  /** Before the next match, the splice copies the text. */
  lemma SpliceCopies(prefix: string, suffix: string, s: string, ms: seq<Match>, i: nat, j: nat)
    requires i <= j && Ordered(s, ms, j)
    ensures Ordered(s, ms, i)
    ensures SpliceFrom(prefix, suffix, s, ms, i) == s[i..j] + SpliceFrom(prefix, suffix, s, ms, j)
  {
    if ms == [] {
      assert s[i..] == s[i..j] + s[j..];
    } else {
      var w := Wrap(prefix, suffix, s, ms[0]);
      var r := SpliceFrom(prefix, suffix, s, ms[1..], ms[0].End());
      assert s[i..ms[0].start] == s[i..j] + s[j..ms[0].start];
      AppendAssoc(s[i..j], s[j..ms[0].start], w);
      AppendAssoc(s[i..j], s[j..ms[0].start] + w, r);
    }
  }

  // ---------------------------------------------------------------------------------------
  // Rendering pieces of text

  /** A position that does not hold `{` starts no match. */
  lemma NoBraceNoMatch(tag: string, s: string, k: nat)
    requires k < |s| && s[k] != '{'
    ensures !MatchesAt(tag, s, k)
  {
    OpensAtChar(tag, s, k, 0);
  }

  /** Where the opener starts at i, its k-th character is at i + k. */
  lemma OpensAtChar(tag: string, s: string, i: nat, k: nat)
    requires i + k < |s| && k < |Opener(tag)|
    ensures OpensAt(tag, s, i) ==> s[i + k] == Opener(tag)[k]
  {
    if OpensAt(tag, s, i) {
      assert s[i + k] == Opener(tag)[k];
    }
  }

  /** Concatenation regrouped. */
  lemma AppendAssoc<T>(a: seq<T>, b: seq<T>, c: seq<T>)
    ensures a + b + c == a + (b + c)
  {
  }

  /** y is the part of s from index d on. */
  predicate SuffixAt(s: string, y: string, d: nat) {
    d + |y| == |s| && forall k :: 0 <= k < |y| ==> s[d + k] == y[k]
  }

  /** y is the part of x + y from index |x| on. */
  lemma SuffixOfAppend(x: string, y: string)
    ensures SuffixAt(x + y, y, |x|)
  {
  }

  /** The whitespace run of y at i, seen inside s. */
  lemma {:induction false} SpaceRunEndShift(s: string, y: string, d: nat, i: nat)
    requires SuffixAt(s, y, d) && i <= |y|
    ensures SpaceRunEnd(s, d + i) == d + SpaceRunEnd(y, i)
    decreases |y| - i
  {
    if i < |y| {
      assert s[d + i] == y[i];
      SpaceRunEndShift(s, y, d, i + 1);
    }
  }

  /** The first `}}` of y at or after j, seen inside s. */
  lemma {:induction false} FindCloseShift(s: string, y: string, d: nat, j: nat)
    requires SuffixAt(s, y, d) && j <= |y|
    ensures FindClose(s, d + j).Some? == FindClose(y, j).Some?
    ensures FindClose(y, j).Some? ==> FindClose(s, d + j).value == d + FindClose(y, j).value
    decreases |y| - j
  {
    if j + 1 < |y| {
      assert s[d + j] == y[j] && s[d + (j + 1)] == y[j + 1];
      FindCloseShift(s, y, d, j + 1);
    }
  }

  /** The opener at i of y, seen inside s. */
  lemma OpensAtShift(tag: string, s: string, y: string, d: nat, i: nat)
    requires SuffixAt(s, y, d) && i <= |y|
    ensures OpensAt(tag, s, d + i) == OpensAt(tag, y, i)
  {
    var o := Opener(tag);
    if i + |o| <= |y| {
      forall k | 0 <= k < |o| ensures s[d + i + k] == o[k] <==> y[i + k] == o[k] {
        assert s[d + (i + k)] == y[i + k];
      }
    }
  }

  /** A slice of y, seen inside s. */
  lemma SliceShift(s: string, y: string, d: nat, a: nat, b: nat)
    requires SuffixAt(s, y, d) && a <= b <= |y|
    ensures s[d + a..d + b] == y[a..b]
  {
    
  }

  /** m moved d positions to the right. */
  function Shifted(m: Match, d: nat): Match {
    Match(d + m.start, d + m.specStart, d + m.specEnd)
  }

  /** The match, if any, moved d positions to the right. */
  function ShiftedOpt(r: Option<Match>, d: nat): Option<Match> {
    match r
    case Some(m) => Some(Shifted(m, d))
    case None => None
  }

  /** The match of y at i, seen inside s, is the same match moved by d. */
  lemma MatchAtShift(tag: string, s: string, y: string, d: nat, i: nat)
    requires SuffixAt(s, y, d) && i <= |y|
    ensures MatchAt(tag, s, d + i) == ShiftedOpt(MatchAt(tag, y, i), d)
  {
    var n := i + |Opener(tag)|;
    OpensAtShift(tag, s, y, d, i);
    if n < |y| {
      assert s[d + n] == y[n];
      SpaceRunEndShift(s, y, d, n);
      FindCloseShift(s, y, d, SpaceRunEnd(y, n));
    }
  }

  /** Matches moved d positions to the right. */
  function ShiftAll(ms: seq<Match>, d: nat): (r: seq<Match>)
    ensures |r| == |ms|
  {
    if ms == [] then [] else [Shifted(ms[0], d)] + ShiftAll(ms[1..], d)
  }

  /** The first of the moved matches, and the rest. */
  lemma ShiftAllCons(ms: seq<Match>, d: nat)
    requires ms != []
    ensures ShiftAll(ms, d)[0] == Shifted(ms[0], d)
    ensures ShiftAll(ms, d)[0].start == d + ms[0].start
    ensures ShiftAll(ms, d)[0].End() == d + ms[0].End()
    ensures ShiftAll(ms, d)[1..] == ShiftAll(ms[1..], d)
  {
  }

  /** The pattern matches at d + p of s exactly where it matches at p of y. */
  lemma MatchesAtShift(tag: string, s: string, y: string, d: nat, p: nat)
    requires SuffixAt(s, y, d) && p <= |y|
    ensures MatchesAt(tag, s, d + p) <==> MatchesAt(tag, y, p)
  {
    MatchAtShift(tag, s, y, d, p);
    MatchAtIsPreferred(tag, s, d + p);
    MatchAtIsPreferred(tag, y, p);
  }

  /** A stretch of y where the pattern matches nowhere, seen inside s. */
  lemma NoMatchesShift(tag: string, s: string, y: string, d: nat, a: nat, b: nat)
    requires SuffixAt(s, y, d) && a <= b <= |y|
    requires forall p :: a <= p < b ==> !MatchesAt(tag, y, p)
    ensures forall p :: d + a <= p < d + b ==> !MatchesAt(tag, s, p)
  {
    forall p | d + a <= p < d + b
      ensures !MatchesAt(tag, s, p)
    {
      MatchesAtShift(tag, s, y, d, p - d);
    }
  }

  /** A preferred match of y, seen inside s. */
  lemma IsMatchShift(tag: string, s: string, y: string, d: nat, m: Match)
    requires SuffixAt(s, y, d) && IsMatch(tag, y, m)
    ensures IsMatch(tag, s, Shifted(m, d))
  {
    MatchAtFinds(tag, y, m);
    MatchAtShift(tag, s, y, d, m.start);
    MatchAtIsPreferred(tag, s, d + m.start);
  }

  /** The step of ScannedShift where matches are left. */
  lemma ScannedShiftStep(tag: string, s: string, y: string, d: nat, i: nat, ms: seq<Match>)
    requires SuffixAt(s, y, d) && Scanned(tag, y, i, ms) && ms != []
    requires Scanned(tag, s, d + ms[0].End(), ShiftAll(ms[1..], d))
    ensures Scanned(tag, s, d + i, ShiftAll(ms, d))
  {
    var m := ms[0];
    NoMatchesShift(tag, s, y, d, i, m.start);
    IsMatchShift(tag, s, y, d, m);
    ShiftAllCons(ms, d);
    assert Shifted(m, d).End() == d + m.End();
  }

  /** The leftmost, non-overlapping matches of the part y of s, moved by d, are those of s
      from where y starts. */
  lemma {:induction false} ScannedShift(tag: string, s: string, y: string, d: nat, i: nat, ms: seq<Match>)
    requires SuffixAt(s, y, d) && Scanned(tag, y, i, ms)
    ensures Scanned(tag, s, d + i, ShiftAll(ms, d))
    decreases ms
  {
    if ms == [] {
      NoMatchesShift(tag, s, y, d, i, |y|);
    } else {
      ScannedShift(tag, s, y, d, ms[0].End(), ms[1..]);
      ScannedShiftStep(tag, s, y, d, i, ms);
    }
  }

  /** The scan of s from where its part y starts finds the leftmost matches of y, moved. */
  lemma ScannedShiftIsMatched(tag: string, s: string, y: string, d: nat, i: nat, ms: seq<Match>)
    requires SuffixAt(s, y, d) && Scanned(tag, y, i, ms)
    ensures MatchedFrom(tag, s, d + i) == ShiftAll(ms, d)
  {
    ScannedShift(tag, s, y, d, i, ms);
    ScanIsMatched(tag, s, d + i, ShiftAll(ms, d));
  }

  /** The scan of the part y of s from index i on finds y's matches, moved by d. */
  lemma MatchedShift(tag: string, s: string, y: string, d: nat, i: nat)
    requires SuffixAt(s, y, d) && i <= |y|
    ensures MatchedFrom(tag, s, d + i) == ShiftAll(MatchedFrom(tag, y, i), d)
  {
    MatchedFromScanned(tag, y, i);
    ScannedShiftIsMatched(tag, s, y, d, i, MatchedFrom(tag, y, i));
  }

  /** Two splices agree when the text before their first matches, the wrapped specs of those
      matches and the rests of the splices agree. */
  lemma SpliceAgree(prefix: string, suffix: string, s: string, y: string,
                    a: seq<Match>, b: seq<Match>, i: nat, j: nat)
    requires Ordered(s, a, i) && Ordered(y, b, j) && a != [] && b != []
    requires s[i..a[0].start] == y[j..b[0].start]
    requires Wrap(prefix, suffix, s, a[0]) == Wrap(prefix, suffix, y, b[0])
    requires SpliceFrom(prefix, suffix, s, a[1..], a[0].End()) == SpliceFrom(prefix, suffix, y, b[1..], b[0].End())
    ensures SpliceFrom(prefix, suffix, s, a, i) == SpliceFrom(prefix, suffix, y, b, j)
  {
    SpliceUnfold(prefix, suffix, s, a, i);
    SpliceUnfold(prefix, suffix, y, b, j);
  }

  /** The splice, one match at a time. */
  lemma SpliceUnfold(prefix: string, suffix: string, s: string, ms: seq<Match>, i: nat)
    requires Ordered(s, ms, i) && ms != []
    ensures SpliceFrom(prefix, suffix, s, ms, i)
         == s[i..ms[0].start] + Wrap(prefix, suffix, s, ms[0])
            + SpliceFrom(prefix, suffix, s, ms[1..], ms[0].End())
  {
  }

  /** The wrapped spec of a match of y, seen inside s. */
  lemma WrapShift(prefix: string, suffix: string, s: string, y: string, d: nat, m: Match)
    requires SuffixAt(s, y, d) && m.specStart <= m.specEnd <= |y|
    ensures Wrap(prefix, suffix, s, Shifted(m, d)) == Wrap(prefix, suffix, y, m)
  {
    SliceShift(s, y, d, m.specStart, m.specEnd);
  }

  /** Ordered matches of y, moved by d, are ordered in s once the rest of them are. */
  lemma OrderedShiftStep(s: string, y: string, d: nat, ms: seq<Match>, i: nat)
    requires d + |y| == |s| && Ordered(y, ms, i) && ms != []
    requires Ordered(s, ShiftAll(ms[1..], d), d + ms[0].End())
    ensures Ordered(s, ShiftAll(ms, d), d + i)
  {
    ShiftAllCons(ms, d);
    assert Shifted(ms[0], d).End() == d + ms[0].End();
  }

  /** Ordered matches of y, moved by d, are ordered in s. */
  lemma {:induction false} OrderedShift(s: string, y: string, d: nat, ms: seq<Match>, i: nat)
    requires d + |y| == |s| && Ordered(y, ms, i)
    ensures Ordered(s, ShiftAll(ms, d), d + i)
    decreases |ms|
  {
    if ms != [] {
      OrderedShift(s, y, d, ms[1..], ms[0].End());
      OrderedShiftStep(s, y, d, ms, i);
    }
  }

  /** The step of SpliceShift where no match is left. */
  lemma SpliceShiftEnd(prefix: string, suffix: string, s: string, y: string, d: nat, i: nat)
    requires SuffixAt(s, y, d) && i <= |y|
    ensures Ordered(s, ShiftAll([], d), d + i)
    ensures SpliceFrom(prefix, suffix, s, ShiftAll([], d), d + i) == SpliceFrom(prefix, suffix, y, [], i)
  {
    SliceShift(s, y, d, i, |y|);
    assert s[d + i..] == s[d + i..d + |y|];
    assert y[i..] == y[i..|y|];
  }

  /** Splicing matches of the part y of s from index i on gives what splicing y gives. */
  lemma {:induction false} SpliceShift(prefix: string, suffix: string, s: string, y: string, d: nat, ms: seq<Match>, i: nat)
    requires SuffixAt(s, y, d) && Ordered(y, ms, i)
    ensures Ordered(s, ShiftAll(ms, d), d + i)
    ensures SpliceFrom(prefix, suffix, s, ShiftAll(ms, d), d + i) == SpliceFrom(prefix, suffix, y, ms, i)
    decreases |ms|
  {
    if ms == [] {
      SpliceShiftEnd(prefix, suffix, s, y, d, i);
    } else {
      OrderedShift(s, y, d, ms, i);
      SpliceShift(prefix, suffix, s, y, d, ms[1..], ms[0].End());
      SliceShift(s, y, d, i, ms[0].start);
      WrapShift(prefix, suffix, s, y, d, ms[0]);
      ShiftAllCons(ms, d);
      SpliceAgree(prefix, suffix, s, y, ShiftAll(ms, d), ms, d + i, i);
    }
  }

  /** Rendering x + y from where y starts gives what rendering y alone gives. */
  lemma RenderSuffix(tag: string, prefix: string, suffix: string, x: string, y: string)
    ensures RenderFrom(tag, prefix, suffix, x + y, |x|) == RenderBlocks(tag, prefix, suffix, y)
  {
    SuffixOfAppend(x, y);
    MatchedShift(tag, x + y, y, |x|, 0);
    MatchedOrdered(tag, y, 0);
    SpliceShift(prefix, suffix, x + y, y, |x|, MatchedFrom(tag, y, 0), 0);
  }

  /** Where no position of pre starts a match, rendering pre + rest keeps pre and renders
      rest on its own. */
  lemma RenderAfterNoMatch(tag: string, prefix: string, suffix: string, pre: string, rest: string)
    requires forall k :: 0 <= k < |pre| ==> !MatchesAt(tag, pre + rest, k)
    ensures RenderBlocks(tag, prefix, suffix, pre + rest) == pre + RenderBlocks(tag, prefix, suffix, rest)
  {
    var s := pre + rest;
    MatchedSkips(tag, s, 0, |pre|);
    MatchedOrdered(tag, s, |pre|);
    SpliceCopies(prefix, suffix, s, MatchedFrom(tag, s, |pre|), 0, |pre|);
    assert s[0..|pre|] == pre;
    RenderSuffix(tag, prefix, suffix, pre, rest);
  }

  /** Text without `{` starts no block and is copied verbatim. */
  lemma RenderPlainPrefix(tag: string, prefix: string, suffix: string, pre: string, rest: string)
    requires '{' !in pre
    ensures RenderBlocks(tag, prefix, suffix, pre + rest) == pre + RenderBlocks(tag, prefix, suffix, rest)
  {
    var s := pre + rest;
    forall k | 0 <= k < |pre| ensures !MatchesAt(tag, s, k) {
      assert s[k] == pre[k];
      NoBraceNoMatch(tag, s, k);
    }
    RenderAfterNoMatch(tag, prefix, suffix, pre, rest);
  }

  /** The opener of another kind, or this kind's opener without whitespace after it, starts
      no block: it is copied verbatim and the scan goes on after it. */
  lemma RenderNonMatchingOpener(tag: string, prefix: string, suffix: string, other: string, rest: string)
    requires '{' !in other
    requires !MatchesAt(tag, Opener(other) + rest, 0)
    ensures RenderBlocks(tag, prefix, suffix, Opener(other) + rest)
         == Opener(other) + RenderBlocks(tag, prefix, suffix, rest)
  {
    var o := Opener(other);
    var s := o + rest;
    forall k | 1 <= k < |o| ensures !MatchesAt(tag, s, k) {
      if k == 1 {
        OpensAtChar(tag, s, 1, 1);
        assert s[2] == o[2];
      } else {
        assert s[k] == o[k];
        NoBraceNoMatch(tag, s, k);
      }
    }
    RenderAfterNoMatch(tag, prefix, suffix, o, rest);
  }

  /** `}` alone at the end of a text without `}` makes no `}}`. */
  lemma NoCloseWithoutBrace(spec: string)
    requires '}' !in spec
    ensures !HasClose(spec + "}")
  {
    var t := spec + "}";
    forall k ensures !ClosesAt(t, k) {
      if 0 <= k < |spec| {
        assert t[k] == spec[k];
      }
    }
  }

  /** The block Opener(tag) + ws + spec + `}}` at the start of a text is a match: ws is the
      non-empty whitespace run after the opener, spec does not start with whitespace, and the
      first `}}` after ws is the one that follows spec. */
  lemma OneBlockIsMatch(tag: string, ws: string, spec: string, post: string)
    requires ws != [] && forall c :: c in ws ==> IsSpace(c)
    requires spec == [] || !IsSpace(spec[0])
    requires !HasClose(spec + "}")
    ensures IsMatch(tag, Opener(tag) + ws + spec + "}}" + post,
                    Match(0, |Opener(tag)| + |ws|, |Opener(tag)| + |ws| + |spec|))
  {
    var s := Opener(tag) + ws + spec + "}}" + post;
    var n := |Opener(tag)|;
    var a := n + |ws|;
    var e := a + |spec|;
    var t := spec + "}";
    forall k | 0 <= k < n ensures s[0 + k] == Opener(tag)[k] {
    }
    forall p | n <= p < a ensures IsSpace(s[p]) {
      assert s[p] == ws[p - n];
    }
    assert s[a] == if spec == [] then '}' else spec[0];
    assert s[e] == '}' && s[e + 1] == '}';
    forall p | a <= p < e ensures !ClosesAt(s, p) {
      assert !ClosesAt(t, p - a);
      assert s[p] == t[p - a] && s[p + 1] == t[p - a + 1];
    }
  }

  /** A well-formed block is replaced by its wrapped spec and the scan resumes after its `}}`. */
  lemma RenderOneBlock(tag: string, prefix: string, suffix: string, ws: string, spec: string, post: string)
    requires ws != [] && forall c :: c in ws ==> IsSpace(c)
    requires spec == [] || !IsSpace(spec[0])
    requires !HasClose(spec + "}")
    ensures RenderBlocks(tag, prefix, suffix, Opener(tag) + ws + spec + "}}" + post)
         == prefix + spec + suffix + RenderBlocks(tag, prefix, suffix, post)
  {
    var block := Opener(tag) + ws + spec + "}}";
    var s := block + post;
    var a := |Opener(tag)| + |ws|;
    var m := Match(0, a, a + |spec|);
    OneBlockIsMatch(tag, ws, spec, post);
    MatchAtFinds(tag, s, m);
    MatchedAtMatch(tag, s, 0, m);
    assert m.End() == |block|;
    MatchedOrdered(tag, s, 0);
    SpliceAtMatch(prefix, suffix, s, MatchedFrom(tag, s, 0), 0);
    assert s[m.specStart..m.specEnd] == spec;
    RenderSuffix(tag, prefix, suffix, block, post);
  }

  /** A well-formed block after text without `{`: the text is kept, the block becomes its
      wrapped spec, and the text after the block is rendered on its own. */
  lemma RenderAroundBlock(tag: string, prefix: string, suffix: string,
                          pre: string, ws: string, spec: string, post: string)
    requires '{' !in pre
    requires ws != [] && forall c :: c in ws ==> IsSpace(c)
    requires spec == [] || !IsSpace(spec[0])
    requires !HasClose(spec + "}")
    ensures RenderBlocks(tag, prefix, suffix, pre + (Opener(tag) + ws + spec + "}}") + post)
         == pre + (prefix + spec + suffix) + RenderBlocks(tag, prefix, suffix, post)
  {
    var block := Opener(tag) + ws + spec + "}}";
    AppendAssoc(pre, block, post);
    RenderPlainPrefix(tag, prefix, suffix, pre, block + post);
    RenderOneBlock(tag, prefix, suffix, ws, spec, post);
    AppendAssoc(pre, prefix + spec + suffix, RenderBlocks(tag, prefix, suffix, post));
  }

  /** The opener of a kind whose name differs from tag at some index starts no block of tag. */
  lemma OtherOpenerNoMatch(tag: string, other: string, rest: string, k: nat)
    requires k < |tag| && k < |other| && tag[k] != other[k]
    ensures !MatchesAt(tag, Opener(other) + rest, 0)
  {
    var s := Opener(other) + rest;
    OpensAtChar(tag, s, 0, 3 + k);
    assert s[3 + k] == other[k] && Opener(tag)[3 + k] == tag[k];
  }

  /** Text whose only `{` characters are those of another kind's opener is left as it is. */
  lemma RenderKeepsOtherOpener(tag: string, prefix: string, suffix: string,
                               pre: string, other: string, post: string, k: nat)
    requires '{' !in pre && '{' !in other && '{' !in post
    requires k < |tag| && k < |other| && tag[k] != other[k]
    ensures RenderBlocks(tag, prefix, suffix, pre + Opener(other) + post) == pre + Opener(other) + post
  {
    OtherOpenerNoMatch(tag, other, post, k);
    AppendAssoc(pre, Opener(other), post);
    RenderPlainPrefix(tag, prefix, suffix, pre, Opener(other) + post);
    RenderNonMatchingOpener(tag, prefix, suffix, other, post);
    RenderPlainPrefix(tag, prefix, suffix, post, []);
    assert post + [] == post;
    assert RenderBlocks(tag, prefix, suffix, []) == [][0..];
  }

  /** The opener not followed by whitespace starts no block: it is copied and the scan goes on. */
  lemma RenderOpenerWithoutSpace(tag: string, prefix: string, suffix: string, rest: string)
    requires '{' !in tag
    requires rest == [] || !IsSpace(rest[0])
    ensures RenderBlocks(tag, prefix, suffix, Opener(tag) + rest)
         == Opener(tag) + RenderBlocks(tag, prefix, suffix, rest)
  {
    var s := Opener(tag) + rest;
    if |Opener(tag)| < |s| {
      assert s[0 + |Opener(tag)|] == rest[0];
    }
    RenderNonMatchingOpener(tag, prefix, suffix, tag, rest);
  }
}
