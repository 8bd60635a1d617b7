/**
 * lib/utils/markdown.ts: the table of contents of a post (`extractTOC`),
 * heading anchors (`generateSlug`), hard truncation (`truncateText`) and the
 * plain-text summary of a post (`extractDescription`).
 *
 * Each regular expression of the source is modelled by a function giving its
 * match at one position, following the backtracking a JavaScript engine does,
 * and a global search or replace scans positions left to right as
 * `RegExp.prototype.exec` and `String.prototype.replace` do.
 */
module Markdown {
  import opened Wrappers
  import opened Text
  import opened Model

  // ---------------------------------------------------------------------
  // generateSlug
  // ---------------------------------------------------------------------

  predicate IsAsciiUpper(c: char) { 'A' <= c <= 'Z' }

  /** `\w` without the `u` flag. */
  predicate IsWordChar(c: char) { 'a' <= c <= 'z' || IsAsciiUpper(c) || IsDigit(c) || c == '_' }

  /** The range `가-힣`: the precomposed Hangul syllables. */
  predicate IsHangulSyllable(c: char) { '\U{AC00}' <= c <= '\U{D7A3}' }

  predicate IsHyphen(c: char) { c == '-' }

  /** What `/[^\w\s가-힣-]/g` leaves in place. */
  predicate IsKept(c: char) { IsWordChar(c) || IsSpace(c) || IsHangulSyllable(c) || c == '-' }

  /** The alphabet of anchor ids. */
  predicate IsSlugChar(c: char) {
    'a' <= c <= 'z' || IsDigit(c) || c == '_' || c == '-' || IsHangulSyllable(c)
  }

  /**
   * `toLowerCase` of one character, for the characters whose lower case the
   * slug filter keeps: ASCII capitals, KELVIN SIGN (to `k`) and LATIN CAPITAL
   * LETTER I WITH DOT ABOVE (to `i` and a combining dot). Every other case
   * mapping yields characters the filter deletes, so they are left as they are.
   */
  function LowerChar(c: char): seq<char> {
    if IsAsciiUpper(c) then [(c as int + 32) as char]
    else if c == '\U{212A}' then "k"
    else if c == '\U{130}' then "i\U{307}"
    else [c]
  }

  function Lower(s: seq<char>): seq<char> {
    if s == [] then [] else LowerChar(s[0]) + Lower(s[1..])
  }

  /** `replace(/[^\w\s가-힣-]/g, '')`. */
  function RemoveUnkept(s: seq<char>): seq<char> {
    if s == [] then [] else (if IsKept(s[0]) then [s[0]] else []) + RemoveUnkept(s[1..])
  }

  /** `replace(/C+/g, '-')` for the character class C given by `p`: each maximal run becomes one hyphen. */
  function ReplaceRuns(s: seq<char>, p: char -> bool): seq<char>
    decreases |s|
  {
    if s == [] then []
    else if p(s[0]) then "-" + ReplaceRuns(DropWhile(s, p), p)
    else [s[0]] + ReplaceRuns(s[1..], p)
  }

  /** `generateSlug`: lower case, filter, white-space runs to `-`, hyphen runs to `-`, `trim`. */
  function Slug(text: seq<char>): seq<char> {
    Trim(ReplaceRuns(ReplaceRuns(RemoveUnkept(Lower(text)), IsSpace), IsHyphen))
  }

  predicate NoDoubleHyphen(s: seq<char>) {
    forall i :: 0 <= i < |s| - 1 ==> !(s[i] == '-' && s[i + 1] == '-')
  }

  lemma {:induction false} LowerHasNoCapitals(s: seq<char>, c: char)
    requires c in Lower(s)
    ensures !IsAsciiUpper(c)
  {
    if s != [] {
      if c !in LowerChar(s[0]) {
        LowerHasNoCapitals(s[1..], c);
      }
    }
  }

  lemma {:induction false} RemoveUnkeptChars(s: seq<char>, c: char)
    requires c in RemoveUnkept(s)
    ensures c in s && IsKept(c)
  {
    if s != [] {
      if !(IsKept(s[0]) && c == s[0]) {
        RemoveUnkeptChars(s[1..], c);
      }
    }
  }

  /** Each character `ReplaceRuns` emits is an inserted hyphen or an input character outside the class. */
  lemma {:induction false} ReplaceRunsChars(s: seq<char>, p: char -> bool, c: char)
    requires c in ReplaceRuns(s, p)
    ensures c == '-' || (c in s && !p(c))
    decreases |s|
  {
    if s != [] {
      if p(s[0]) {
        if c != '-' {
          var d := DropWhile(s, p);
          ReplaceRunsChars(d, p, c);
          assert c in d;
        }
      } else if c != s[0] {
        ReplaceRunsChars(s[1..], p, c);
      }
    }
  }

  /** A non-empty output starts with the input's first character when that is outside the class. */
  lemma ReplaceRunsHead(s: seq<char>, p: char -> bool)
    requires s != [] && !p(s[0])
    ensures ReplaceRuns(s, p) != [] && ReplaceRuns(s, p)[0] == s[0]
  {
  }

  /** When the hyphen belongs to the class, no two class characters are adjacent in the output. */
  lemma {:induction false} ReplaceRunsNoAdjacent(s: seq<char>, p: char -> bool)
    requires p('-')
    ensures forall i :: 0 <= i < |ReplaceRuns(s, p)| - 1 ==>
      !(p(ReplaceRuns(s, p)[i]) && p(ReplaceRuns(s, p)[i + 1]))
    decreases |s|
  {
    if s != [] {
      var r := ReplaceRuns(s, p);
      if p(s[0]) {
        var d := DropWhile(s, p);
        ReplaceRunsNoAdjacent(d, p);
        if d != [] {
          ReplaceRunsHead(d, p);
        }
      } else {
        ReplaceRunsNoAdjacent(s[1..], p);
      }
    }
  }

  /** Input with no class character is left alone. */
  lemma {:induction false} ReplaceRunsNone(s: seq<char>, p: char -> bool)
    requires forall i :: 0 <= i < |s| ==> !p(s[i])
    ensures ReplaceRuns(s, p) == s
  {
    if s != [] {
      ReplaceRunsNone(s[1..], p);
    }
  }

  /** Input whose class characters are lone hyphens is left alone. */
  lemma {:induction false} ReplaceRunsSingles(s: seq<char>, p: char -> bool)
    requires forall i :: 0 <= i < |s| ==> p(s[i]) ==> s[i] == '-'
    requires forall i :: 0 <= i < |s| - 1 ==> !(p(s[i]) && p(s[i + 1]))
    ensures ReplaceRuns(s, p) == s
  {
    if s != [] {
      if p(s[0]) {
        RunEndAt(s, 0, 1, p);
        assert DropWhile(s, p) == s[1..];
      }
      ReplaceRunsSingles(s[1..], p);
    }
  }

  /** The text after the two replacement passes, before `trim`. */
  function Hyphenated(text: seq<char>): seq<char> {
    ReplaceRuns(ReplaceRuns(RemoveUnkept(Lower(text)), IsSpace), IsHyphen)
  }

  lemma HyphenatedChars(text: seq<char>, c: char)
    requires c in Hyphenated(text)
    ensures IsSlugChar(c)
  {
    var kept := RemoveUnkept(Lower(text));
    var spaced := ReplaceRuns(kept, IsSpace);
    ReplaceRunsChars(spaced, IsHyphen, c);
    if c != '-' {
      ReplaceRunsChars(kept, IsSpace, c);
      RemoveUnkeptChars(Lower(text), c);
      LowerHasNoCapitals(text, c);
    }
  }

  /** The final `.trim()` of `generateSlug` never removes anything: no white space survives the earlier passes. */
  lemma SlugTrimIsNoOp(text: seq<char>)
    ensures Slug(text) == Hyphenated(text)
  {
    var h := Hyphenated(text);
    if h != [] {
      HyphenatedChars(text, h[0]);
      HyphenatedChars(text, h[|h| - 1]);
    }
    TrimUntrimmed(h);
  }

  /** Anchor ids consist of lower-case ASCII letters, digits, `_`, `-` and Hangul syllables only. */
  lemma SlugAlphabet(text: seq<char>)
    ensures forall i :: 0 <= i < |Slug(text)| ==> IsSlugChar(Slug(text)[i]) && !IsSpace(Slug(text)[i])
  {
    SlugTrimIsNoOp(text);
    var h := Hyphenated(text);
    forall i | 0 <= i < |h| ensures IsSlugChar(h[i]) {
      HyphenatedChars(text, h[i]);
    }
  }

  /** Anchor ids never hold two hyphens in a row. */
  lemma SlugNoDoubleHyphen(text: seq<char>)
    ensures NoDoubleHyphen(Slug(text))
  {
    SlugTrimIsNoOp(text);
    ReplaceRunsNoAdjacent(ReplaceRuns(RemoveUnkept(Lower(text)), IsSpace), IsHyphen);
  }

  lemma {:induction false} LowerOfSlugChars(s: seq<char>)
    requires forall i :: 0 <= i < |s| ==> IsSlugChar(s[i])
    ensures Lower(s) == s
  {
    if s != [] {
      LowerOfSlugChars(s[1..]);
    }
  }

  lemma {:induction false} RemoveUnkeptOfSlugChars(s: seq<char>)
    requires forall i :: 0 <= i < |s| ==> IsSlugChar(s[i])
    ensures RemoveUnkept(s) == s
  {
    if s != [] {
      RemoveUnkeptOfSlugChars(s[1..]);
    }
  }

  /** Text already in the anchor-id alphabet, without two hyphens in a row, is its own slug. */
  lemma SlugOfSlugText(u: seq<char>)
    requires forall i :: 0 <= i < |u| ==> IsSlugChar(u[i])
    requires NoDoubleHyphen(u)
    ensures Slug(u) == u
  {
    LowerOfSlugChars(u);
    RemoveUnkeptOfSlugChars(u);
    ReplaceRunsNone(u, IsSpace);
    ReplaceRunsSingles(u, IsHyphen);
    SlugTrimIsNoOp(u);
  }

  /** `generateSlug` is idempotent: an anchor id is its own slug. */
  lemma SlugIdempotent(text: seq<char>)
    ensures Slug(Slug(text)) == Slug(text)
  {
    SlugAlphabet(text);
    SlugNoDoubleHyphen(text);
    SlugOfSlugText(Slug(text));
  }

  /** A one-letter capital heading gets the lower-case letter as its id. */
  lemma SlugOfCapital(c: char)
    requires IsAsciiUpper(c)
    ensures Slug([c]) == [(c as int + 32) as char]
  {
    var l := [(c as int + 32) as char];
    assert Lower([c]) == l;
    LowerOfSlugChars(l);
    SlugOfSlugText(l);
  }

  /**
   * Leading hyphens remain: `trim` removes white space, not hyphens. A
   * heading such as "! a" gives "-a": the '!' is deleted, the blank becomes
   * a hyphen, and the hyphen stays in front.
   */
  lemma SlugKeepsLeadingHyphen(c: char)
    requires 'a' <= c <= 'z'
    ensures Slug(['!', ' ', c]) == ['-', c]
  {
    var s := ['!', ' ', c];
    LowerOfBangSpace(c);
    RemoveBang(c);
    SpaceRunToHyphen(c);
    HyphenRunKept(c);
    SlugTrimIsNoOp(s);
  }

  lemma LowerOfBangSpace(c: char)
    requires 'a' <= c <= 'z'
    ensures Lower(['!', ' ', c]) == ['!', ' ', c]
  {
    assert ['!', ' ', c][1..] == [' ', c] && [' ', c][1..] == [c];
    assert Lower([c]) == [c];
    assert Lower([' ', c]) == [' ', c];
  }

  lemma RemoveBang(c: char)
    requires 'a' <= c <= 'z'
    ensures RemoveUnkept(['!', ' ', c]) == [' ', c]
  {
    assert ['!', ' ', c][1..] == [' ', c] && [' ', c][1..] == [c];
    assert RemoveUnkept([c]) == [c];
    assert RemoveUnkept([' ', c]) == [' ', c];
  }

  lemma SpaceRunToHyphen(c: char)
    requires 'a' <= c <= 'z'
    ensures ReplaceRuns([' ', c], IsSpace) == ['-', c]
  {
    RunEndAt([' ', c], 0, 1, IsSpace);
    assert DropWhile([' ', c], IsSpace) == [c];
    assert ReplaceRuns([c], IsSpace) == [c];
  }

  lemma HyphenRunKept(c: char)
    requires 'a' <= c <= 'z'
    ensures ReplaceRuns(['-', c], IsHyphen) == ['-', c]
  {
    RunEndAt(['-', c], 0, 1, IsHyphen);
    assert DropWhile(['-', c], IsHyphen) == [c];
    assert ReplaceRuns([c], IsHyphen) == [c];
  }

  // ---------------------------------------------------------------------
  // The heading pattern /^(#{lo,hi})\s+(.+)$/m
  // ---------------------------------------------------------------------

  /** A match of the heading pattern: `level` hashes from `start`; the captured text is s[bodyStart..end]. */
  datatype HeadingMatch = HeadingMatch(start: nat, level: nat, bodyStart: nat, end: nat)

  predicate IsHash(c: char) { c == '#' }

  /** Where `^` matches in multiline mode. */
  predicate IsLineStart(s: seq<char>, p: nat)
    requires p <= |s|
  {
    p == 0 || IsLineTerminator(s[p - 1])
  }

  /** Where `.+$` ends when it starts at k: the next line terminator, or the end. */
  function LineEnd(s: seq<char>, k: nat): (e: nat)
    requires k <= |s|
    ensures k <= e <= |s|
  {
    RunEnd(s, k, IsLineChar)
  }

  /**
   * `\s+(.+)$` once `\s+` has taken s[q..k]: `(.+)` needs a character that is
   * not a line terminator at k; otherwise `\s+` gives back one character.
   * The result is the captured text's bounds.
   */
  function TryBody(s: seq<char>, q: nat, k: nat): (r: Option<(nat, nat)>)
    requires q < k <= |s|
    ensures r.Some? ==> q < r.value.0 < r.value.1 <= |s| && r.value.1 == LineEnd(s, r.value.0)
    decreases k
  {
    if k < |s| && IsLineChar(s[k]) then Some((k, LineEnd(s, k)))
    else if k == q + 1 then None
    else TryBody(s, q, k - 1)
  }

  /** `\s+(.+)$` at q, with `\s+` greedy. */
  function BodyAt(s: seq<char>, q: nat): (r: Option<(nat, nat)>)
    requires q <= |s|
    ensures r.Some? ==> q < r.value.0 < r.value.1 <= |s| && r.value.1 == LineEnd(s, r.value.0)
  {
    if q < |s| && IsSpace(s[q]) then TryBody(s, q, RunEnd(s, q, IsSpace)) else None
  }

  /** The rest of the pattern once `#{lo,hi}` has taken n hashes from p; on failure it gives one back. */
  function TryHashes(s: seq<char>, p: nat, n: nat, lo: nat): (r: Option<HeadingMatch>)
    requires p + n <= |s| && 1 <= lo
    ensures r.Some? ==> r.value.start == p && lo <= r.value.level <= n
    ensures r.Some? ==> p + r.value.level < r.value.bodyStart < r.value.end <= |s|
    ensures r.Some? ==> r.value.end == LineEnd(s, r.value.bodyStart)
    decreases n
  {
    if n < lo then None
    else match BodyAt(s, p + n)
      case Some(body) => Some(HeadingMatch(p, n, body.0, body.1))
      case None => TryHashes(s, p, n - 1, lo)
  }

  /** The match of /^(#{lo,hi})\s+(.+)$/m at position p, if any. */
  function HeadingAt(s: seq<char>, p: nat, lo: nat, hi: nat): (r: Option<HeadingMatch>)
    requires p <= |s| && 1 <= lo
    ensures r.Some? ==> r.value.start == p && lo <= r.value.level <= hi
    ensures r.Some? ==> p + r.value.level < r.value.bodyStart < r.value.end <= |s|
    ensures r.Some? ==> r.value.end == LineEnd(s, r.value.bodyStart)
  {
    if !IsLineStart(s, p) then None
    else
      var run := RunEnd(s, p, IsHash) - p;
      TryHashes(s, p, if run < hi then run else hi, lo)
  }

  /** `exec` of the global pattern with `lastIndex` = from: the leftmost match at or after from. */
  function NextHeading(s: seq<char>, from: nat, lo: nat, hi: nat): (r: Option<HeadingMatch>)
    requires from <= |s| && 1 <= lo
    ensures r.Some? ==> from <= r.value.start <= |s| && HeadingAt(s, r.value.start, lo, hi) == r
    ensures r.Some? ==> forall p :: from <= p < r.value.start ==> HeadingAt(s, p, lo, hi).None?
    ensures r.None? ==> forall p :: from <= p <= |s| ==> HeadingAt(s, p, lo, hi).None?
    decreases |s| - from
  {
    var here := HeadingAt(s, from, lo, hi);
    if here.Some? then here
    else if from == |s| then None
    else
      var r := NextHeading(s, from + 1, lo, hi);
      NoHeadingBefore(s, from, lo, hi, r);
      r
  }

  /** A position without a match extends the match-free stretch in front of the next match by one. */
  lemma NoHeadingBefore(s: seq<char>, from: nat, lo: nat, hi: nat, r: Option<HeadingMatch>)
    requires from < |s| && 1 <= lo && HeadingAt(s, from, lo, hi).None?
    requires r.Some? ==> from + 1 <= r.value.start <= |s| && HeadingAt(s, r.value.start, lo, hi) == r
    requires r.Some? ==> forall p :: from + 1 <= p < r.value.start ==> HeadingAt(s, p, lo, hi).None?
    requires r.None? ==> forall p :: from + 1 <= p <= |s| ==> HeadingAt(s, p, lo, hi).None?
    ensures r.Some? ==> from <= r.value.start <= |s| && HeadingAt(s, r.value.start, lo, hi) == r
    ensures r.Some? ==> forall p :: from <= p < r.value.start ==> HeadingAt(s, p, lo, hi).None?
    ensures r.None? ==> forall p :: from <= p <= |s| ==> HeadingAt(s, p, lo, hi).None?
  {
  }

  // ---------------------------------------------------------------------
  // extractTOC
  // ---------------------------------------------------------------------

  /** The matches `extractTOC`'s loop visits once `lastIndex` is from. */
  function TocMatches(s: seq<char>, from: nat): (ms: seq<HeadingMatch>)
    requires from <= |s|
    ensures forall i :: 0 <= i < |ms| ==> from <= ms[i].start < ms[i].end <= |s|
    decreases |s| - from
  {
    match NextHeading(s, from, 2, 3)
    case None => []
    case Some(m) =>
      var rest := TocMatches(s, m.end);
      ConsInRange(s, from, m, rest);
      [m] + rest
  }

  /** A match in range followed by matches from its end on are all in range. */
  lemma ConsInRange(s: seq<char>, from: nat, m: HeadingMatch, rest: seq<HeadingMatch>)
    requires from <= m.start <= |s| && HeadingAt(s, m.start, 2, 3) == Some(m)
    requires forall i :: 0 <= i < |rest| ==> m.end <= rest[i].start < rest[i].end <= |s|
    ensures m.start < m.end
    ensures forall i :: 0 <= i < |rest| + 1 ==> from <= ([m] + rest)[i].start < ([m] + rest)[i].end <= |s|
  {
    forall i | 0 <= i < |rest| + 1 ensures from <= ([m] + rest)[i].start < ([m] + rest)[i].end <= |s| {
      if i > 0 { assert ([m] + rest)[i] == rest[i - 1]; }
    }
  }

  /** The entry `extractTOC` pushes for a match: trimmed text, its slug, the number of hashes. */
  function ItemOf(s: seq<char>, m: HeadingMatch): TOCItem
    requires m.bodyStart <= m.end <= |s|
  {
    var text := Trim(s[m.bodyStart..m.end]);
    TOCItem(Slug(text), text, m.level)
  }

  predicate WithinText(s: seq<char>, ms: seq<HeadingMatch>) {
    forall i :: 0 <= i < |ms| ==> ms[i].bodyStart <= ms[i].end <= |s|
  }

  function ItemsOf(s: seq<char>, ms: seq<HeadingMatch>): (items: seq<TOCItem>)
    requires WithinText(s, ms)
    ensures |items| == |ms|
  {
    if ms == [] then [] else ItemsOf(s, ms[..|ms| - 1]) + [ItemOf(s, ms[|ms| - 1])]
  }

  lemma TocMatchesWithinText(s: seq<char>, from: nat)
    requires from <= |s|
    ensures WithinText(s, TocMatches(s, from))
  {
    var ms := TocMatches(s, from);
    forall i | 0 <= i < |ms| ensures ms[i].bodyStart <= ms[i].end <= |s| {
      TocMatchSound(s, from, i);
    }
  }

  /** The table of contents of a document. */
  function Toc(s: seq<char>): seq<TOCItem> {
    TocMatchesWithinText(s, 0);
    ItemsOf(s, TocMatches(s, 0))
  }

  /** `extractTOC`: run the global heading pattern with `exec` until it fails, pushing one entry per match. */
  method ExtractTOC(markdown: string) returns (items: seq<TOCItem>)
    ensures items == Toc(markdown)
  {
    items := [];
    var lastIndex := 0;
    ghost var seen: seq<HeadingMatch> := [];
    var match_ := NextHeading(markdown, lastIndex, 2, 3);
    while match_.Some?
      invariant lastIndex <= |markdown|
      invariant match_ == NextHeading(markdown, lastIndex, 2, 3)
      invariant seen + TocMatches(markdown, lastIndex) == TocMatches(markdown, 0)
      invariant WithinText(markdown, seen)
      invariant items == ItemsOf(markdown, seen)
      decreases |markdown| - lastIndex
    {
      var m := match_.value;
      var level := m.level;
      var text := Trim(markdown[m.bodyStart..m.end]);
      var id := Slug(text);
      items := items + [TOCItem(id, text, level)];
      TocMatchesUnfold(markdown, lastIndex);
      AppendAssoc(seen, m, TocMatches(markdown, m.end));
      WithinTextSnoc(markdown, seen, m);
      seen := seen + [m];
      lastIndex := m.end;
      match_ := NextHeading(markdown, lastIndex, 2, 3);
    }
    TocDone(markdown, lastIndex, seen);
  }

  lemma AppendAssoc<T>(a: seq<T>, x: T, b: seq<T>)
    ensures (a + [x]) + b == a + ([x] + b)
  {
  }

  lemma TocMatchesUnfold(s: seq<char>, from: nat)
    requires from <= |s|
    requires NextHeading(s, from, 2, 3).Some?
    ensures var m := NextHeading(s, from, 2, 3).value;
      && m.bodyStart <= m.end <= |s|
      && TocMatches(s, from) == [m] + TocMatches(s, m.end)
  {
  }

  lemma WithinTextSnoc(s: seq<char>, seen: seq<HeadingMatch>, m: HeadingMatch)
    requires WithinText(s, seen)
    requires m.bodyStart <= m.end <= |s|
    ensures WithinText(s, seen + [m])
    ensures ItemsOf(s, seen + [m]) == ItemsOf(s, seen) + [ItemOf(s, m)]
  {
    assert (seen + [m])[..|seen|] == seen;
  }

  /** When `exec` fails, the loop has visited every match. */
  lemma TocDone(s: seq<char>, from: nat, seen: seq<HeadingMatch>)
    requires from <= |s|
    requires NextHeading(s, from, 2, 3).None?
    requires seen + TocMatches(s, from) == TocMatches(s, 0)
    requires WithinText(s, seen)
    ensures ItemsOf(s, seen) == Toc(s)
  {
    assert TocMatches(s, from) == [];
    assert seen == TocMatches(s, 0);
  }

  /** Each visited match is a match of the heading pattern where it starts. */
  lemma {:induction false} TocMatchSound(s: seq<char>, from: nat, i: nat)
    requires from <= |s|
    requires i < |TocMatches(s, from)|
    ensures HeadingAt(s, TocMatches(s, from)[i].start, 2, 3) == Some(TocMatches(s, from)[i])
    decreases |s| - from
  {
    var m := NextHeading(s, from, 2, 3).value;
    if i > 0 {
      TocMatchSound(s, m.end, i - 1);
    }
  }

  /** Matches come in document order and do not overlap. */
  lemma {:induction false} TocMatchesOrdered(s: seq<char>, from: nat, i: nat, j: nat)
    requires from <= |s|
    requires i < j < |TocMatches(s, from)|
    ensures TocMatches(s, from)[i].end <= TocMatches(s, from)[j].start
    decreases |s| - from
  {
    var m := NextHeading(s, from, 2, 3).value;
    var rest := TocMatches(s, m.end);
    assert TocMatches(s, from) == [m] + rest;
    assert TocMatches(s, from)[j] == rest[j - 1];
    if i > 0 {
      TocMatchesOrdered(s, m.end, i - 1, j - 1);
      assert TocMatches(s, from)[i] == rest[i - 1];
    }
  }

  /** `exec` from `from` finds a match that starts no later than any match at or after `from`. */
  lemma NextHeadingFinds(s: seq<char>, from: nat, p: nat)
    requires from <= p <= |s|
    requires HeadingAt(s, p, 2, 3).Some?
    ensures NextHeading(s, from, 2, 3).Some? && NextHeading(s, from, 2, 3).value.start <= p
  {
  }

  /** Some match in ms covers position p. */
  predicate Covers(ms: seq<HeadingMatch>, p: nat) {
    exists i :: 0 <= i < |ms| && ms[i].start <= p < ms[i].end
  }

  lemma CoversCons(m: HeadingMatch, rest: seq<HeadingMatch>, p: nat)
    requires (m.start <= p < m.end) || Covers(rest, p)
    ensures Covers([m] + rest, p)
  {
    var ms := [m] + rest;
    if m.start <= p < m.end {
      assert ms[0] == m;
    } else {
      var i :| 0 <= i < |rest| && rest[i].start <= p < rest[i].end;
      assert ms[i + 1] == rest[i];
    }
  }

  /** No heading is missed: wherever the pattern matches, a visited match starts there or covers it. */
  lemma {:induction false} TocMatchesComplete(s: seq<char>, from: nat, p: nat)
    requires from <= p <= |s|
    requires HeadingAt(s, p, 2, 3).Some?
    ensures Covers(TocMatches(s, from), p)
    decreases |s| - from
  {
    NextHeadingFinds(s, from, p);
    var m := NextHeading(s, from, 2, 3).value;
    TocMatchesUnfold(s, from);
    if p >= m.end {
      TocMatchesComplete(s, m.end, p);
    }
    CoversCons(m, TocMatches(s, m.end), p);
  }

  lemma {:induction false} ItemsOfAt(s: seq<char>, ms: seq<HeadingMatch>, i: nat)
    requires WithinText(s, ms) && i < |ms|
    ensures ItemsOf(s, ms)[i] == ItemOf(s, ms[i])
  {
    if i < |ms| - 1 {
      ItemsOfAt(s, ms[..|ms| - 1], i);
    }
  }

  /**
   * Every entry has level 2 or 3, its text is the trimmed capture of a heading
   * match at a line start, in document order, and its id is the slug of its text.
   */
  lemma TocEntries(s: seq<char>)
    ensures |Toc(s)| == |TocMatches(s, 0)|
    ensures forall i :: 0 <= i < |Toc(s)| ==>
      var m := TocMatches(s, 0)[i];
      && HeadingAt(s, m.start, 2, 3) == Some(m)
      && IsLineStart(s, m.start)
      && Toc(s)[i].level == m.level
      && (Toc(s)[i].level == 2 || Toc(s)[i].level == 3)
      && Toc(s)[i].text == Trim(s[m.bodyStart..m.end])
      && Toc(s)[i].id == Slug(Toc(s)[i].text)
  {
    TocMatchesWithinText(s, 0);
    var ms := TocMatches(s, 0);
    forall i | 0 <= i < |ms|
      ensures HeadingAt(s, ms[i].start, 2, 3) == Some(ms[i])
      ensures Toc(s)[i] == ItemOf(s, ms[i])
    {
      TocMatchSound(s, 0, i);
      ItemsOfAt(s, ms, i);
    }
  }

  /** On a line with some text, the blanks at q end before the line does. */
  lemma BlanksEndInLine(s: seq<char>, q: nat)
    requires q < |s|
    requires !AllSpace(s[q..LineEnd(s, q)])
    ensures RunEnd(s, q, IsSpace) < LineEnd(s, q)
  {
    var le := LineEnd(s, q);
    var k :| 0 <= k < le - q && !IsSpace(s[q..le][k]);
    assert s[q..le][k] == s[q + k];
  }

  /** `\s+(.+)$` at a blank that opens a line with some text on it: the capture is the rest of the line after the blanks. */
  lemma BodyOfLine(s: seq<char>, q: nat)
    requires q < |s| && IsSpace(s[q])
    requires !AllSpace(s[q..LineEnd(s, q)])
    ensures BodyAt(s, q) == Some((RunEnd(s, q, IsSpace), LineEnd(s, q)))
    ensures AllSpace(s[q..RunEnd(s, q, IsSpace)])
    ensures s[q..LineEnd(s, q)] == s[q..RunEnd(s, q, IsSpace)] + s[RunEnd(s, q, IsSpace)..LineEnd(s, q)]
  {
    var le := LineEnd(s, q);
    var r := RunEnd(s, q, IsSpace);
    BlanksEndInLine(s, q);
    assert IsLineChar(s[r]);
    RunEndAt(s, r, le, IsLineChar);
    TryBodyAt(s, q, r);
    assert AllSpace(s[q..r]) by {
      forall i | 0 <= i < r - q ensures IsSpace(s[q..r][i]) {
        assert s[q..r][i] == s[q + i];
      }
    }
  }

  /** `\s+(.+)$` at q succeeds at once when k holds a character of the line. */
  lemma TryBodyAt(s: seq<char>, q: nat, k: nat)
    requires q < k < |s| && IsLineChar(s[k])
    ensures TryBody(s, q, k) == Some((k, LineEnd(s, k)))
  {
  }

  /** The match at a line of two or three hashes, a blank and some text. */
  lemma HeadingAtLine(s: seq<char>, p: nat, n: nat)
    requires n == 2 || n == 3
    requires p + n < |s| && IsLineStart(s, p)
    requires forall i :: p <= i < p + n ==> s[i] == '#'
    requires IsSpace(s[p + n])
    requires BodyAt(s, p + n) == Some((RunEnd(s, p + n, IsSpace), LineEnd(s, p + n)))
    ensures HeadingAt(s, p, 2, 3) == Some(HeadingMatch(p, n, RunEnd(s, p + n, IsSpace), LineEnd(s, p + n)))
  {
    RunEndAt(s, p, p + n, IsHash);
  }

  /**
   * A heading line in the usual form, `##` or `###` then a blank that is not a
   * line break and then some text on the same line, gives the entry whose
   * text is the rest of the line, trimmed.
   */
  lemma HeadingLine(s: seq<char>, p: nat, n: nat)
    requires n == 2 || n == 3
    requires p + n < |s| && IsLineStart(s, p)
    requires forall i :: p <= i < p + n ==> s[i] == '#'
    requires IsSpace(s[p + n]) && IsLineChar(s[p + n])
    requires !AllSpace(s[p + n..LineEnd(s, p + n)])
    ensures HeadingAt(s, p, 2, 3).Some?
    ensures HeadingAt(s, p, 2, 3).value.level == n
    ensures Trim(s[HeadingAt(s, p, 2, 3).value.bodyStart..HeadingAt(s, p, 2, 3).value.end])
      == Trim(s[p + n..LineEnd(s, p + n)])
  {
    var q := p + n;
    BodyOfLine(s, q);
    HeadingAtLine(s, p, n);
    var r := RunEnd(s, q, IsSpace);
    TrimAfterSpace(s[q..r], s[r..LineEnd(s, q)]);
  }

  /** A line opening with one hash, or with four or more, gives no entry there. */
  lemma OtherLevelsSkipped(s: seq<char>, p: nat)
    requires p <= |s|
    requires RunEnd(s, p, IsHash) - p == 1 || RunEnd(s, p, IsHash) - p >= 4
    ensures HeadingAt(s, p, 2, 3).None?
  {
  }

  /** Duplicate headings are not made unique: they give equal ids. */
  lemma DuplicateHeadingsShareId(s: seq<char>, i: nat, j: nat)
    requires i < j < |Toc(s)|
    requires Toc(s)[i].text == Toc(s)[j].text
    ensures Toc(s)[i].id == Toc(s)[j].id
  {
    TocEntries(s);
  }

  // ---------------------------------------------------------------------
  // truncateText
  // ---------------------------------------------------------------------

  /** `truncateText`: unchanged when short enough, else cut to maxLength, trimmed, and "..." appended. */
  function TruncateText(text: seq<char>, maxLength: int): (r: seq<char>)
    ensures |text| <= maxLength ==> r == text
    ensures |text| > maxLength ==> |r| >= 3 && r[|r| - 3..] == "..."
    ensures |text| > maxLength && maxLength >= 0 ==>
      r[..|r| - 3] == Trim(text[..maxLength]) && |r| <= maxLength + 3
  {
    if |text| <= maxLength then text else Trim(Slice(text, 0, maxLength)) + "..."
  }

  /**
   * A cut that neither starts nor ends with a blank is kept whole before the
   * "...": ("Hello world", 5) gives "Hello...".
   */
  lemma TruncateCleanCut(text: seq<char>, maxLength: nat)
    requires 0 < maxLength < |text|
    requires !IsSpace(text[0]) && !IsSpace(text[maxLength - 1])
    ensures TruncateText(text, maxLength) == text[..maxLength] + "..."
  {
    var cut := text[..maxLength];
    assert cut[0] == text[0] && cut[maxLength - 1] == text[maxLength - 1];
    TrimUntrimmed(cut);
  }

  // ---------------------------------------------------------------------
  // extractDescription
  // ---------------------------------------------------------------------

  /** The five replacement passes of `extractDescription`, in the order the source runs them. */
  datatype Pass =
    | StripHeadings    // /^#+\s+.+$/gm -> ''
    | StripFences      // /```[\s\S]*?```/g -> ''
    | StripInlineCode  // /`[^`]+`/g -> ''
    | UnwrapLinks      // /\[([^\]]+)\]\([^)]+\)/g -> '$1'
    | StripImages      // /!\[[^\]]*\]\([^)]+\)/g -> ''

  /** A match ending at `end` and the text that replaces it. */
  datatype Rewrite = Rewrite(end: nat, text: seq<char>)

  /** The first index at or after k holding c. */
  function IndexFrom(s: seq<char>, k: nat, c: char): (r: Option<nat>)
    requires k <= |s|
    ensures r.Some? ==> k <= r.value < |s| && s[r.value] == c
    ensures r.Some? ==> forall i :: k <= i < r.value ==> s[i] != c
    ensures r.None? ==> forall i :: k <= i < |s| ==> s[i] != c
    decreases |s| - k
  {
    if k == |s| then None else if s[k] == c then Some(k) else IndexFrom(s, k + 1, c)
  }

  predicate IsFenceAt(s: seq<char>, k: nat) {
    k + 3 <= |s| && s[k..k + 3] == "```"
  }

  /** The first fence starting at or after k: where the lazy `[\s\S]*?` stops. */
  function FenceFrom(s: seq<char>, k: nat): (r: Option<nat>)
    requires k <= |s|
    ensures r.Some? ==> k <= r.value && IsFenceAt(s, r.value)
    ensures r.Some? ==> forall i :: k <= i < r.value ==> !IsFenceAt(s, i)
    ensures r.None? ==> forall i :: k <= i <= |s| ==> !IsFenceAt(s, i)
    decreases |s| - k
  {
    if k + 3 > |s| then None else if IsFenceAt(s, k) then Some(k) else FenceFrom(s, k + 1)
  }

  /** `\]\([^)]+\)` once a closing bracket was found at q: the end of the match. */
  function TargetAfter(s: seq<char>, q: nat): (r: Option<nat>)
    requires q < |s|
    ensures r.Some? ==> q + 3 < r.value <= |s|
    ensures r.Some? ==> s[q + 1] == '(' && s[r.value - 1] == ')'
    ensures r.Some? ==> forall i :: q + 2 <= i < r.value - 1 ==> s[i] != ')'
  {
    if q + 2 <= |s| - 1 && s[q + 1] == '(' then
      match IndexFrom(s, q + 2, ')')
      case Some(e) => if e > q + 2 then Some(e + 1) else None
      case None => None
    else None
  }

  /** The match of one pass's pattern at position p, with its replacement. */
  function PassAt(pass: Pass, s: seq<char>, p: nat): (r: Option<Rewrite>)
    requires p < |s|
    ensures r.Some? ==> p < r.value.end <= |s|
    ensures r.Some? && pass != UnwrapLinks ==> r.value.text == []
    ensures r.Some? && pass == StripHeadings ==> HeadingAt(s, p, 1, |s|).Some?
    ensures r.Some? && pass == StripFences ==>
      p + 6 <= r.value.end && IsFenceAt(s, p) && IsFenceAt(s, r.value.end - 3)
    ensures r.Some? && pass == StripInlineCode ==>
      p + 2 < r.value.end && s[p] == '`' && s[r.value.end - 1] == '`' && '`' !in s[p + 1..r.value.end - 1]
    ensures r.Some? && pass == UnwrapLinks ==>
      s[p] == '[' && r.value.text != [] && ']' !in r.value.text && p + 1 + |r.value.text| < r.value.end &&
      s[p + 1..p + 1 + |r.value.text|] == r.value.text && s[p + 1 + |r.value.text|] == ']' && s[r.value.end - 1] == ')'
    ensures r.Some? && pass == StripImages ==>
      p + 1 < |s| && s[p] == '!' && s[p + 1] == '[' && s[r.value.end - 1] == ')'
  {
    match pass
    case StripHeadings =>
      (match HeadingAt(s, p, 1, |s|)
       case Some(m) => Some(Rewrite(m.end, ""))
       case None => None)
    case StripFences =>
      if IsFenceAt(s, p) then
        (match FenceFrom(s, p + 3)
         case Some(q) => Some(Rewrite(q + 3, ""))
         case None => None)
      else None
    case StripInlineCode =>
      if s[p] == '`' then
        (match IndexFrom(s, p + 1, '`')
         case Some(q) => if q > p + 1 then Some(Rewrite(q + 1, "")) else None
         case None => None)
      else None
    case UnwrapLinks =>
      if s[p] == '[' then
        (match IndexFrom(s, p + 1, ']')
         case Some(q) =>
           if q > p + 1 then
             (match TargetAfter(s, q)
              case Some(e) => Some(Rewrite(e, s[p + 1..q]))
              case None => None)
           else None
         case None => None)
      else None
    case StripImages =>
      if s[p] == '!' && p + 1 < |s| && s[p + 1] == '[' then
        (match IndexFrom(s, p + 2, ']')
         case Some(q) =>
           (match TargetAfter(s, q)
            case Some(e) => Some(Rewrite(e, ""))
            case None => None)
         case None => None)
      else None
  }

  /** `s.replace(pattern, replacement)` for a global pattern, from position p on. */
  function ReplaceFrom(pass: Pass, s: seq<char>, p: nat): seq<char>
    requires p <= |s|
    decreases |s| - p
  {
    if p == |s| then []
    else match PassAt(pass, s, p)
      case Some(w) => w.text + ReplaceFrom(pass, s, w.end)
      case None => [s[p]] + ReplaceFrom(pass, s, p + 1)
  }

  function Replace(pass: Pass, s: seq<char>): seq<char> {
    ReplaceFrom(pass, s, 0)
  }

  /** The text after all five passes, in the source's order. */
  function StripMarkup(markdown: seq<char>): seq<char> {
    var withoutHeadings := Replace(StripHeadings, markdown);
    var withoutCode := Replace(StripFences, withoutHeadings);
    var withoutInlineCode := Replace(StripInlineCode, withoutCode);
    var withoutLinks := Replace(UnwrapLinks, withoutInlineCode);
    Replace(StripImages, withoutLinks)
  }

  /** `lines.map(trim).filter(nonEmpty)[0] || ''`. */
  function FirstNonBlank(lines: seq<seq<char>>): (r: seq<char>)
    ensures r == [] <==> forall i :: 0 <= i < |lines| ==> Trim(lines[i]) == []
    ensures r != [] ==> exists i :: (0 <= i < |lines| && r == Trim(lines[i]) &&
      forall j :: 0 <= j < i ==> Trim(lines[j]) == [])
  {
    if lines == [] then []
    else if Trim(lines[0]) != [] then Trim(lines[0])
    else
      var r := FirstNonBlank(lines[1..]);
      BlankHeadShift(lines, r);
      r
  }

  /** A first non-blank line of the tail, after a blank head, is the first non-blank line of the whole. */
  lemma BlankHeadShift(lines: seq<seq<char>>, r: seq<char>)
    requires lines != [] && Trim(lines[0]) == []
    requires r == [] <==> forall i :: 0 <= i < |lines| - 1 ==> Trim(lines[1..][i]) == []
    requires r != [] ==> exists i :: (0 <= i < |lines| - 1 && r == Trim(lines[1..][i]) &&
      forall j :: 0 <= j < i ==> Trim(lines[1..][j]) == [])
    ensures r == [] <==> forall i :: 0 <= i < |lines| ==> Trim(lines[i]) == []
    ensures r != [] ==> exists i :: (0 <= i < |lines| && r == Trim(lines[i]) &&
      forall j :: 0 <= j < i ==> Trim(lines[j]) == [])
  {
    assert forall i :: 1 <= i < |lines| ==> lines[i] == lines[1..][i - 1];
    if r != [] {
      var i :| 0 <= i < |lines| - 1 && r == Trim(lines[1..][i]) &&
        forall j :: 0 <= j < i ==> Trim(lines[1..][j]) == [];
      assert lines[i + 1] == lines[1..][i];
      forall j | 0 <= j < i + 1 ensures Trim(lines[j]) == [] {
        if j > 0 { assert lines[j] == lines[1..][j - 1]; }
      }
    }
  }

  const DefaultDescriptionLength := 160

  /** A character a text lacks is not in its trimmed form, nor in its truncation unless it is a dot. */
  lemma TruncateLacks(t: seq<char>, maxLength: int, c: char)
    requires c !in t && c != '.'
    ensures c !in Trim(t)
    ensures c !in TruncateText(t, maxLength)
  {
    if c in Trim(t) { TrimChars(t, c); }
    if |t| > maxLength {
      var cut := Slice(t, 0, maxLength);
      SliceLacks(t, maxLength, c);
      if c in Trim(cut) { TrimChars(cut, c); }
      assert TruncateText(t, maxLength) == Trim(cut) + "...";
    }
  }

  /** A prefix cut from a text lacks what the text lacks. */
  lemma SliceLacks(t: seq<char>, maxLength: int, c: char)
    requires c !in t
    ensures c !in Slice(t, 0, maxLength)
  {
    var cut := Slice(t, 0, maxLength);
    var a := SliceBound(0, |t|);
    assert cut == t[a..a + |cut|];
    forall i | 0 <= i < |cut| ensures cut[i] != c {
      assert cut[i] == t[a + i];
    }
  }

  lemma FirstNonBlankLacks(lines: seq<seq<char>>, maxLength: int, c: char)
    requires forall i :: 0 <= i < |lines| ==> c !in lines[i]
    requires c != '.'
    ensures c !in TruncateText(FirstNonBlank(lines), maxLength)
  {
    var first := FirstNonBlank(lines);
    if first != [] {
      var i :| 0 <= i < |lines| && first == Trim(lines[i]);
      TruncateLacks(lines[i], maxLength, c);
      TruncateLacks(first, maxLength, c);
    } else {
      TruncateLacks(first, maxLength, c);
    }
  }

  /** `split('\n')`: the lines of a text, none holding a line feed. */
  function LinesOf(text: seq<char>): (lines: seq<seq<char>>)
    ensures forall i :: 0 <= i < |lines| ==> '\n' !in lines[i]
  {
    Split(text, '\n')
  }

  /**
   * Lines 58-63 of `extractDescription` on the stripped text: the first line
   * that is not blank, trimmed, then truncated. Empty exactly when every line
   * is blank; otherwise the truncation of the first line that is not blank;
   * never holds a line feed.
   */
  function Describe(stripped: seq<char>, maxLength: int): (r: seq<char>)
    ensures maxLength >= 0 ==>
      (r == [] <==> forall i :: 0 <= i < |LinesOf(stripped)| ==> Trim(LinesOf(stripped)[i]) == [])
    ensures r != [] ==> exists i :: (0 <= i < |LinesOf(stripped)| &&
      r == TruncateText(Trim(LinesOf(stripped)[i]), maxLength) &&
      forall j :: 0 <= j < i ==> Trim(LinesOf(stripped)[j]) == [])
    ensures '\n' !in r
  {
    var lines := LinesOf(stripped);
    FirstNonBlankLacks(lines, maxLength, '\n');
    assert lines != [];
    TruncatedFirst(lines, maxLength);
    TruncateEmpty(FirstNonBlank(lines), maxLength);
    TruncateText(FirstNonBlank(lines), maxLength)
  }

  /** The summary is the truncation of the first non-blank line, or of a blank one when there is none. */
  lemma TruncatedFirst(lines: seq<seq<char>>, maxLength: int)
    requires lines != []
    ensures exists i :: (0 <= i < |lines| &&
      TruncateText(FirstNonBlank(lines), maxLength) == TruncateText(Trim(lines[i]), maxLength) &&
      forall j :: 0 <= j < i ==> Trim(lines[j]) == [])
  {
    var first := FirstNonBlank(lines);
    var i: nat := 0;
    if first != [] {
      i :| 0 <= i < |lines| && first == Trim(lines[i]) && forall j :: 0 <= j < i ==> Trim(lines[j]) == [];
    } else {
      assert first == Trim(lines[0]);
    }
    assert TruncateText(first, maxLength) == TruncateText(Trim(lines[i]), maxLength);
  }

  lemma TruncateEmpty(text: seq<char>, maxLength: int)
    ensures maxLength >= 0 ==> (TruncateText(text, maxLength) == [] <==> text == [])
  {
  }

  /**
   * `extractDescription` as written: the first line of the stripped text that
   * is not blank, trimmed and truncated, or empty when there is none.
   */
  function ExtractDescription(markdown: seq<char>, maxLength: int): (r: seq<char>)
    ensures maxLength >= 0 ==>
      (r == [] <==> forall i :: 0 <= i < |LinesOf(StripMarkup(markdown))| ==>
        Trim(LinesOf(StripMarkup(markdown))[i]) == [])
    ensures r != [] ==> exists i :: (0 <= i < |LinesOf(StripMarkup(markdown))| &&
      r == TruncateText(Trim(LinesOf(StripMarkup(markdown))[i]), maxLength) &&
      forall j :: 0 <= j < i ==> Trim(LinesOf(StripMarkup(markdown))[j]) == [])
    ensures '\n' !in r
  {
    Describe(StripMarkup(markdown), maxLength)
  }

  /** The text lacks a character every match of the pass holds, so the pass has nothing to replace. */
  predicate Lacks(pass: Pass, s: seq<char>) {
    match pass
    case StripHeadings => '#' !in s
    case StripFences => '`' !in s
    case StripInlineCode => '`' !in s
    case UnwrapLinks => '[' !in s
    case StripImages => '[' !in s || '!' !in s
  }

  /** Text with none of the characters any pass needs. */
  predicate NoMarkup(s: seq<char>) {
    '#' !in s && '`' !in s && '[' !in s
  }

  lemma PassAtNone(pass: Pass, s: seq<char>, p: nat)
    requires Lacks(pass, s) && p < |s|
    ensures PassAt(pass, s, p).None?
  {
    assert s[p] in s;
    if pass.StripHeadings? && IsLineStart(s, p) {
      RunEndAt(s, p, p, IsHash);
    }
    if pass.StripImages? && p + 1 < |s| {
      assert s[p + 1] in s;
    }
  }

  lemma {:induction false} ReplaceFromLacking(pass: Pass, s: seq<char>, p: nat)
    requires Lacks(pass, s) && p <= |s|
    ensures ReplaceFrom(pass, s, p) == s[p..]
    decreases |s| - p
  {
    if p < |s| {
      PassAtNone(pass, s, p);
      ReplaceFromLacking(pass, s, p + 1);
      assert s[p..] == [s[p]] + s[p + 1..];
    }
  }

  /** Text without '#', '`' or '[' comes through all five passes unchanged. */
  lemma StripMarkupPlain(s: seq<char>)
    requires NoMarkup(s)
    ensures StripMarkup(s) == s
  {
    ReplaceFromLacking(StripHeadings, s, 0);
    ReplaceFromLacking(StripFences, s, 0);
    ReplaceFromLacking(StripInlineCode, s, 0);
    ReplaceFromLacking(UnwrapLinks, s, 0);
    ReplaceFromLacking(StripImages, s, 0);
  }

  /** A single plain line is described by its own trimmed, truncated text. */
  lemma PlainDescription(s: seq<char>, maxLength: int)
    requires NoMarkup(s) && '\n' !in s
    ensures ExtractDescription(s, maxLength) == TruncateText(Trim(s), maxLength)
  {
    StripMarkupPlain(s);
    SplitWithoutSeparator(s, '\n');
  }

  lemma {:induction false} IndexFromAt(s: seq<char>, k: nat, j: nat, c: char)
    requires k <= j < |s| && s[j] == c
    requires forall i :: k <= i < j ==> s[i] != c
    ensures IndexFrom(s, k, c) == Some(j)
    decreases j - k
  {
    if k < j { IndexFromAt(s, k + 1, j, c); }
  }

  /** Markdown for a link, `[text](url)`. */
  function LinkText(text: seq<char>, url: seq<char>): seq<char> {
    "[" + text + "](" + url + ")"
  }

  /** Markdown for an image, `![alt](url)`. */
  function ImageText(alt: seq<char>, url: seq<char>): seq<char> {
    "!" + LinkText(alt, url)
  }

  /** `(url)` after the closing bracket at q, for a url without ')': the match ends after it. */
  lemma TargetAt(s: seq<char>, q: nat, url: seq<char>)
    requires q + |url| + 3 <= |s| && s[q + 1..q + |url| + 3] == "(" + url + ")"
    requires url != [] && ')' !in url
    ensures TargetAfter(s, q) == Some(q + |url| + 3)
  {
    var e := q + |url| + 2;
    assert s[q + 1] == '(' && s[e] == ')';
    forall i | q + 2 <= i < e ensures s[i] != ')' {
      assert s[i] == url[i - q - 2];
    }
    IndexFromAt(s, q + 2, e, ')');
  }

  /** The pieces of a link at p: its brackets, its text and its target. */
  lemma LinkParts(s: seq<char>, p: nat, text: seq<char>, url: seq<char>)
    requires p + |LinkText(text, url)| <= |s| && s[p..p + |LinkText(text, url)|] == LinkText(text, url)
    ensures s[p] == '[' && s[p + 1 + |text|] == ']' && s[p + 1..p + 1 + |text|] == text
    ensures s[p + 1 + |text| + 1..p + 1 + |text| + |url| + 3] == "(" + url + ")"
  {
    var link := LinkText(text, url);
    var n := |link|;
    assert s[p] == link[0];
    assert s[p + 1 + |text|] == link[1 + |text|];
    SubSlice(s, p, p + n, 1, 1 + |text|);
    assert link[1..1 + |text|] == text;
    SubSlice(s, p, p + n, 2 + |text|, n);
    assert link[2 + |text|..n] == "(" + url + ")";
  }

  /** A slice of a slice is a slice of the whole. */
  lemma SubSlice(s: seq<char>, a: nat, b: nat, i: nat, j: nat)
    requires a <= b <= |s| && i <= j <= b - a
    ensures s[a..b][i..j] == s[a + i..a + j]
  {
    assert |s[a..b][i..j]| == j - i == |s[a + i..a + j]|;
    forall k | 0 <= k < j - i ensures s[a..b][i..j][k] == s[a + i..a + j][k] {
      assert s[a..b][i..j][k] == s[a..b][i + k] == s[a + i + k];
    }
  }

  /** The link pattern matches a link at p, anywhere in the text, and the replacement is its text. */
  lemma LinkAt(s: seq<char>, p: nat, text: seq<char>, url: seq<char>)
    requires p + |LinkText(text, url)| <= |s| && s[p..p + |LinkText(text, url)|] == LinkText(text, url)
    requires text != [] && ']' !in text && url != [] && ')' !in url
    ensures PassAt(UnwrapLinks, s, p) == Some(Rewrite(p + |LinkText(text, url)|, text))
  {
    var q := p + 1 + |text|;
    LinkParts(s, p, text, url);
    forall i | p + 1 <= i < q ensures s[i] != ']' {
      assert s[i] == s[p + 1..q][i - p - 1];
    }
    IndexFromAt(s, p + 1, q, ']');
    TargetAt(s, q, url);
  }

  /** The image pattern matches an image at p, anywhere in the text. */
  lemma ImageAt(s: seq<char>, p: nat, alt: seq<char>, url: seq<char>)
    requires p + |ImageText(alt, url)| <= |s| && s[p..p + |ImageText(alt, url)|] == ImageText(alt, url)
    requires ']' !in alt && url != [] && ')' !in url
    ensures PassAt(StripImages, s, p) == Some(Rewrite(p + |ImageText(alt, url)|, ""))
  {
    var image := ImageText(alt, url);
    var q := p + 2 + |alt|;
    assert s[p] == image[0] == '!';
    SubSlice(s, p, p + |image|, 1, |image|);
    assert image[1..] == LinkText(alt, url);
    LinkParts(s, p + 1, alt, url);
    forall i | p + 2 <= i < q ensures s[i] != ']' {
      assert s[i] == s[p + 2..q][i - p - 2];
    }
    IndexFromAt(s, p + 2, q, ']');
    TargetAt(s, q, url);
  }

  /** The fence pattern matches a fenced block at p whose inside holds no fence, lazily ending at its closing fence. */
  lemma FenceAt(s: seq<char>, p: nat, x: seq<char>)
    requires p + |x| + 6 <= |s| && s[p..p + |x| + 6] == "```" + x + "```"
    requires forall i :: p + 3 <= i < p + 3 + |x| ==> !IsFenceAt(s, i)
    ensures PassAt(StripFences, s, p) == Some(Rewrite(p + |x| + 6, ""))
  {
    var block := "```" + x + "```";
    assert s[p..p + 3] == block[..3] == "```";
    assert s[p + 3 + |x|..p + |x| + 6] == block[3 + |x|..] == "```";
    assert IsFenceAt(s, p) && IsFenceAt(s, p + 3 + |x|);
  }

  /** A text that is one fenced block, with no fence inside, is removed by the fence pass. */
  lemma FenceBlockRemoved(x: seq<char>)
    requires forall i :: 3 <= i < 3 + |x| ==> !IsFenceAt("```" + x + "```", i)
    ensures Replace(StripFences, "```" + x + "```") == []
  {
    var s := "```" + x + "```";
    FenceAt(s, 0, x);
    assert ReplaceFrom(StripFences, s, |s|) == [];
  }

  /** The parts of a link or image that the heading and code passes leave alone. */
  predicate NoCodeOrHeading(t: seq<char>) {
    '#' !in t && '`' !in t
  }

  /** The first three passes leave text without '#' and '`' unchanged. */
  lemma StripCodeAndHeadingsPlain(s: seq<char>)
    requires NoCodeOrHeading(s)
    ensures Replace(StripInlineCode, Replace(StripFences, Replace(StripHeadings, s))) == s
  {
    ReplaceFromLacking(StripHeadings, s, 0);
    ReplaceFromLacking(StripFences, s, 0);
    ReplaceFromLacking(StripInlineCode, s, 0);
  }

  /** A link is replaced by its text. */
  lemma LinkKeepsText(text: seq<char>, url: seq<char>)
    requires NoMarkup(text) && ']' !in text && text != []
    requires NoCodeOrHeading(url) && ')' !in url && url != []
    ensures StripMarkup(LinkText(text, url)) == text
  {
    var s := LinkText(text, url);
    StripCodeAndHeadingsPlain(s);
    UnwrapWholeLink(text, url);
    ReplaceFromLacking(StripImages, text, 0);
  }

  /** The link pass replaces a text that is one whole link by the link's text. */
  lemma UnwrapWholeLink(text: seq<char>, url: seq<char>)
    requires ']' !in text && text != [] && ')' !in url && url != []
    ensures Replace(UnwrapLinks, LinkText(text, url)) == text
  {
    var s := LinkText(text, url);
    LinkAt(s, 0, text, url);
    assert ReplaceFrom(UnwrapLinks, s, |s|) == [];
  }

  /**
   * As written, an image with alternative text is not removed: the link
   * pattern runs first and matches its bracketed part, leaving '!' and the
   * alternative text, and the image pattern then finds nothing.
   */
  lemma ImageLeavesAltText(alt: seq<char>, url: seq<char>)
    requires NoMarkup(alt) && ']' !in alt && alt != []
    requires NoCodeOrHeading(url) && ')' !in url && url != []
    ensures StripMarkup(ImageText(alt, url)) == "!" + alt
  {
    var s := ImageText(alt, url);
    StripCodeAndHeadingsPlain(s);
    assert s[1..] == LinkText(alt, url);
    LinkAt(s, 1, alt, url);
    assert s[0] == '!';
    assert ReplaceFrom(UnwrapLinks, s, |s|) == [];
    assert ReplaceFrom(UnwrapLinks, s, 1) == alt;
    assert Replace(UnwrapLinks, s) == "!" + alt;
    ReplaceFromLacking(StripImages, "!" + alt, 0);
  }

  /** The sample input that shows it: the description of "![alt](u)" is "!alt". */
  lemma ImageDescriptionSample()
    ensures ExtractDescription("![alt](u)", DefaultDescriptionLength) == "!alt"
  {
    assert ImageText("alt", "u") == "![alt](u)";
    ImageLeavesAltText("alt", "u");
    assert "!" + "alt" == "!alt";
    DescribeLine("!alt", DefaultDescriptionLength);
  }

  /** A single line without surrounding blanks that fits is its own description. */
  lemma DescribeLine(line: seq<char>, maxLength: int)
    requires line != [] && '\n' !in line && |line| <= maxLength
    requires !IsSpace(line[0]) && !IsSpace(line[|line| - 1])
    ensures Describe(line, maxLength) == line
  {
    SplitWithoutSeparator(line, '\n');
    TrimUntrimmed(line);
  }

  /** The five passes with images removed before links are unwrapped, as the comments at lines 53-56 intend. */
  function StripMarkupImagesFirst(markdown: seq<char>): seq<char> {
    var withoutHeadings := Replace(StripHeadings, markdown);
    var withoutCode := Replace(StripFences, withoutHeadings);
    var withoutInlineCode := Replace(StripInlineCode, withoutCode);
    var withoutImages := Replace(StripImages, withoutInlineCode);
    Replace(UnwrapLinks, withoutImages)
  }

  function ExtractDescriptionImagesFirst(markdown: seq<char>, maxLength: int): seq<char> {
    Describe(StripMarkupImagesFirst(markdown), maxLength)
  }

  /** With images first, an image is removed whole, whatever its alternative text. */
  lemma ImagesFirstRemovesImage(alt: seq<char>, url: seq<char>)
    requires NoCodeOrHeading(alt) && ']' !in alt
    requires NoCodeOrHeading(url) && ')' !in url && url != []
    ensures StripMarkupImagesFirst(ImageText(alt, url)) == []
    ensures ExtractDescriptionImagesFirst(ImageText(alt, url), DefaultDescriptionLength) == []
  {
    var s := ImageText(alt, url);
    StripCodeAndHeadingsPlain(s);
    ImageAt(s, 0, alt, url);
    assert ReplaceFrom(StripImages, s, |s|) == [];
    assert Replace(StripImages, s) == [];
    assert Split([], '\n') == [[]];
  }

  /** With images first, a link still keeps its text. */
  lemma ImagesFirstKeepsLinkText(text: seq<char>, url: seq<char>)
    requires NoMarkup(text) && ']' !in text && '!' !in text && text != []
    requires NoCodeOrHeading(url) && ')' !in url && '!' !in url && url != []
    ensures StripMarkupImagesFirst(LinkText(text, url)) == text
  {
    var s := LinkText(text, url);
    StripCodeAndHeadingsPlain(s);
    assert '!' !in s;
    ReplaceFromLacking(StripImages, s, 0);
    LinkAt(s, 0, text, url);
    assert ReplaceFrom(UnwrapLinks, s, |s|) == [];
  }

  /** With images first, plain text is unchanged, as before. */
  lemma ImagesFirstPlain(s: seq<char>)
    requires NoMarkup(s)
    ensures StripMarkupImagesFirst(s) == s
  {
    ReplaceFromLacking(StripHeadings, s, 0);
    ReplaceFromLacking(StripFences, s, 0);
    ReplaceFromLacking(StripInlineCode, s, 0);
    ReplaceFromLacking(StripImages, s, 0);
    ReplaceFromLacking(UnwrapLinks, s, 0);
  }

  /** A heading whose text is one capital letter gets that letter in lower case as its id. */
  lemma ItemOfCapital(s: seq<char>, m: HeadingMatch, c: char)
    requires m.bodyStart <= m.end <= |s| && s[m.bodyStart..m.end] == [c] && IsAsciiUpper(c)
    ensures ItemOf(s, m) == TOCItem([(c as int + 32) as char], [c], m.level)
  {
    TrimUntrimmed([c]);
    SlugOfCapital(c);
  }
}
