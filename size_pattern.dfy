/**
 * The pattern `of\s+([\d.]+\s*[MG]B)` compiled with `re.I` and searched for with
 * `re.search`: the word "of", white space, a number made of digits and dots,
 * optional white space and a unit MB or GB, letters in either case. The group is
 * everything after the white space that follows "of".
 */
module SizePattern {
  import opened Wrappers
  import opened Text

  /** A character of `[\d.]`. */
  predicate IsSizeChar(c: char) {
    IsDigit(c) || c == '.'
  }

  /** `c` matches the pattern letter `lower` under `re.I`. */
  predicate LetterIs(c: char, lower: char) {
    ToLower(c) == lower
  }

  /** `[MG]B` under `re.I` at positions `b` and `b + 1`. */
  predicate UnitAt(s: string, b: nat) {
    b + 2 <= |s| && (LetterIs(s[b], 'm') || LetterIs(s[b], 'g')) && LetterIs(s[b + 1], 'b')
  }

  /**
   * The pattern matches the text `s[i..b+2]`: "of" at `i`, white space in
   * `s[i+2..g]` (at least one character), `[\d.]` characters in `s[g..a]` (at least
   * one), white space in `s[a..b]` and the unit at `b`. The group is `s[g..b+2]`.
   */
  ghost predicate MatchAt(s: string, i: nat, g: nat, a: nat, b: nat) {
    i + 2 < g < a <= b && UnitAt(s, b) &&
    LetterIs(s[i], 'o') && LetterIs(s[i + 1], 'f') &&
    (forall m :: i + 2 <= m < g ==> IsSpace(s[m])) &&
    (forall m :: g <= m < a ==> IsSizeChar(s[m])) &&
    (forall m :: a <= m < b ==> IsSpace(s[m]))
  }

  /** Some match of the pattern starts at `i`. */
  ghost predicate MatchesAt(s: string, i: nat) {
    exists g, a, b :: MatchAt(s, i, g, a, b)
  }

  /** A match at `i` consists of the greedy spans, so its group is unique. */
  lemma MatchAtSpans(s: string, i: nat, g: nat, a: nat, b: nat)
    requires MatchAt(s, i, g, a, b)
    ensures LetterIs(s[i], 'o') && LetterIs(s[i + 1], 'f')
    ensures g == Span(s, i + 2, IsSpace) && a == Span(s, g, IsSizeChar) && b == Span(s, a, IsSpace)
  {
    SpanUnique(s, i + 2, IsSpace, g);
    SpanUnique(s, g, IsSizeChar, a);
    SpanUnique(s, a, IsSpace, b);
  }

  /** Every match starts with the letters "of", in either case. */
  lemma MatchStartsWithOf(s: string, i: nat)
    ensures MatchesAt(s, i) ==> i + 1 < |s| && LetterIs(s[i], 'o') && LetterIs(s[i + 1], 'f')
  {
  }

  /**
   * Any match at `i` starts with "of" and consists of the greedy spans, so the
   * greedy spans then meet the length and unit conditions.
   */
  lemma GreedyMatch(s: string, i: nat)
    ensures MatchesAt(s, i) ==>
      i + 2 <= |s| && LetterIs(s[i], 'o') && LetterIs(s[i + 1], 'f') &&
      var g := Span(s, i + 2, IsSpace);
      var a := Span(s, g, IsSizeChar);
      i + 2 < g < a && UnitAt(s, Span(s, a, IsSpace))
  {
    if MatchesAt(s, i) {
      var g, a, b :| MatchAt(s, i, g, a, b);
      MatchAtSpans(s, i, g, a, b);
    }
  }

  /** Greedy spans that meet the length and unit conditions form a match. */
  lemma SpansFormMatch(s: string, i: nat, g: nat, a: nat, b: nat)
    requires i + 2 <= |s| && LetterIs(s[i], 'o') && LetterIs(s[i + 1], 'f')
    requires g == Span(s, i + 2, IsSpace) && a == Span(s, g, IsSizeChar) && b == Span(s, a, IsSpace)
    requires i + 2 < g < a && UnitAt(s, b)
    ensures MatchAt(s, i, g, a, b)
  {
  }

  /** The match starting exactly at `i`, as (group start, end of the number, unit position). */
  function MatchFrom(s: string, i: nat): (r: Option<(nat, nat, nat)>)
    requires i <= |s|
    ensures r.Some? ==> MatchAt(s, i, r.value.0, r.value.1, r.value.2)
    ensures r.None? ==> !MatchesAt(s, i)
  {
    GreedyMatch(s, i);
    if i + 2 <= |s| && LetterIs(s[i], 'o') && LetterIs(s[i + 1], 'f') then
      var g := Span(s, i + 2, IsSpace);
      var a := Span(s, g, IsSizeChar);
      var b := Span(s, a, IsSpace);
      if i + 2 < g && g < a && UnitAt(s, b)
      then SpansFormMatch(s, i, g, a, b); Some((g, a, b))
      else None
    else
      None
  }

  /** `re.search` from position `from` on: the first position that starts a match. */
  function SearchFrom(s: string, from: nat): (r: Option<(nat, nat, nat, nat)>)
    requires from <= |s|
    ensures r.Some? ==> from <= r.value.0 && MatchAt(s, r.value.0, r.value.1, r.value.2, r.value.3)
    ensures r.Some? ==> forall i :: from <= i < r.value.0 ==> !MatchesAt(s, i)
    ensures r.None? ==> forall i :: from <= i <= |s| ==> !MatchesAt(s, i)
    decreases |s| - from
  {
    match MatchFrom(s, from)
    case Some((g, a, b)) => Some((from, g, a, b))
    case None => if from == |s| then None else SearchFrom(s, from + 1)
  }

  /**
   * The text of a size as the group captures it: a run of `[\d.]` ending at `a`,
   * white space up to `b`, then MB or GB.
   */
  ghost predicate SizeShape(sz: string, a: nat, b: nat) {
    0 < a <= b && |sz| == b + 2 && UnitAt(sz, b) &&
    (forall m :: 0 <= m < a ==> IsSizeChar(sz[m])) &&
    (forall m :: a <= m < b ==> IsSpace(sz[m]))
  }

  ghost predicate IsSizeText(sz: string) {
    exists a, b :: SizeShape(sz, a, b)
  }

  /** Position `i` of `pre` does not start "of", whatever text follows `pre`. */
  predicate NoOfAt(pre: string, i: nat)
    requires i < |pre|
  {
    !LetterIs(pre[i], 'o') || (i + 1 < |pre| && !LetterIs(pre[i + 1], 'f'))
  }

  /** Text in which no "o" (either case) is directly followed by an "f" (either case). */
  predicate NoOf(pre: string) {
    forall i :: 0 <= i < |pre| ==> NoOfAt(pre, i)
  }

  /** No match starts inside a prefix without "of", whatever follows it. */
  lemma NoMatchInPrefix(s: string, pre: string)
    requires |pre| <= |s| && s[..|pre|] == pre && NoOf(pre)
    ensures forall i :: 0 <= i < |pre| ==> !MatchesAt(s, i)
  {
    forall i | 0 <= i < |pre|
      ensures !MatchesAt(s, i)
    {
      MatchStartsWithOf(s, i);
      assert NoOfAt(pre, i);
      assert s[i] == pre[i];
      if i + 1 < |pre| {
        assert s[i + 1] == pre[i + 1];
      }
    }
  }

  /** A size preceded by "of " is matched there, with the size as its group. */
  lemma MatchBeforeSize(s: string, pre: string, size: string, a: nat, b: nat)
    requires s == pre + "of " + size && SizeShape(size, a, b)
    ensures MatchAt(s, |pre|, |pre| + 3, |pre| + 3 + a, |pre| + 3 + b)
    ensures s[|pre| + 3..|pre| + 3 + b + 2] == size
  {
    var g := |pre| + 3;
    assert forall m :: 0 <= m < |size| ==> s[g + m] == size[m];
    assert s[|pre|] == 'o' && s[|pre| + 1] == 'f' && s[|pre| + 2] == ' ';
    assert s[g..] == size;
  }

  /** The group of a match has the shape of a size. */
  lemma GroupIsSizeText(s: string, i: nat, g: nat, a: nat, b: nat)
    requires MatchAt(s, i, g, a, b)
    ensures SizeShape(s[g..b + 2], a - g, b - g)
  {
    var sz := s[g..b + 2];
    assert forall m :: 0 <= m < |sz| ==> sz[m] == s[g + m];
  }

  /** `SIZE_RE.search(txt).group(1)`, or None when there is no match. */
  function FindSize(s: string): Option<string> {
    match SearchFrom(s, 0)
    case None => None
    case Some((i, g, a, b)) => Some(s[g..b + 2])
  }

  /** Two matches at the same position are the same match. */
  lemma MatchUnique(s: string, i: nat, g: nat, a: nat, b: nat, g': nat, a': nat, b': nat)
    requires MatchAt(s, i, g, a, b) && MatchAt(s, i, g', a', b')
    ensures g == g' && a == a' && b == b'
  {
    MatchAtSpans(s, i, g, a, b);
    MatchAtSpans(s, i, g', a', b');
  }

  /** The search from the start stops at the first position where a match starts. */
  lemma SearchFindsLeftmost(s: string, i: nat)
    requires MatchesAt(s, i)
    requires forall i' :: 0 <= i' < i ==> !MatchesAt(s, i')
    ensures SearchFrom(s, 0).Some? && SearchFrom(s, 0).value.0 == i
  {
    var r := SearchFrom(s, 0);
    assert MatchesAt(s, r.value.0);
  }

  /** The leftmost match decides the size: its group is the result. */
  lemma FindSizeOfLeftmost(s: string, i: nat, g: nat, a: nat, b: nat, v: string)
    requires MatchAt(s, i, g, a, b) && v == s[g..b + 2]
    requires forall i' :: 0 <= i' < i ==> !MatchesAt(s, i')
    ensures FindSize(s) == Some(v)
  {
    assert MatchesAt(s, i);
    SearchFindsLeftmost(s, i);
    var r := SearchFrom(s, 0).value;
    MatchUnique(s, i, g, a, b, r.1, r.2, r.3);
  }

  /** A size right after "of ", with no "of" before it, is the size found in the text. */
  lemma FindSizeAfter(s: string, pre: string, size: string)
    requires s == pre + "of " + size && IsSizeText(size) && NoOf(pre)
    ensures FindSize(s) == Some(size)
  {
    var a: nat, b: nat :| SizeShape(size, a, b);
    assert s[..|pre|] == pre;
    MatchBeforeSize(s, pre, size, a, b);
    NoMatchInPrefix(s, pre);
    FindSizeOfLeftmost(s, |pre|, |pre| + 3, |pre| + 3 + a, |pre| + 3 + b, size);
  }

  /**
   * The size is the number and unit of the leftmost "of <number> MB|GB" (letters
   * in either case), there is none exactly when the text has no such part, and a
   * size always has the shape `[\d.]+\s*[MG]B`.
   */
  lemma FindSizeSpec(s: string)
    ensures FindSize(s).None? <==> forall i :: 0 <= i < |s| ==> !MatchesAt(s, i)
    ensures FindSize(s).Some? ==> exists i: nat, g: nat, a: nat, b: nat ::
      MatchAt(s, i, g, a, b) && (forall i' :: 0 <= i' < i ==> !MatchesAt(s, i')) &&
      FindSize(s).value == s[g..b + 2]
    ensures FindSize(s).Some? ==> IsSizeText(FindSize(s).value) && |FindSize(s).value| >= 3
  {
    match SearchFrom(s, 0)
    case None =>
    case Some((i, g, a, b)) =>
      assert MatchesAt(s, i);
      var v := s[g..b + 2];
      assert FindSize(s) == Some(v);
      GroupIsSizeText(s, i, g, a, b);
      assert IsSizeText(v);
  }
}
