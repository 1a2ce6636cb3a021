/**
 * The pattern `(\d+)\s*%` searched for with `re.search`: the leftmost position
 * at which a digit run, optional white space and a percent sign occur, with the
 * digit run as the captured group.
 */
module PercentPattern {
  import opened Wrappers
  import opened Text

  /**
   * The pattern matches the text `s[i..k+1]`: digits in `s[i..j]` (the group),
   * white space in `s[j..k]` and `%` at `k`.
   */
  ghost predicate MatchAt(s: string, i: nat, j: nat, k: nat) {
    i < j <= k < |s| &&
    (forall m :: i <= m < j ==> IsDigit(s[m])) &&
    (forall m :: j <= m < k ==> IsSpace(s[m])) &&
    s[k] == '%'
  }

  /** Some match of the pattern starts at `i`. */
  ghost predicate MatchesAt(s: string, i: nat) {
    exists j, k :: MatchAt(s, i, j, k)
  }

  /** A match at `i` consists of the greedy spans, so its group and its `%` are unique. */
  lemma MatchAtSpans(s: string, i: nat, j: nat, k: nat)
    requires MatchAt(s, i, j, k)
    ensures IsDigit(s[i])
    ensures j == Span(s, i, IsDigit) && k == Span(s, j, IsSpace)
  {
    SpanUnique(s, i, IsDigit, j);
    SpanUnique(s, j, IsSpace, k);
  }

  /**
   * The match starting exactly at `i`, as (end of the group, position of `%`):
   * the greedy digit run, then the greedy white-space run, then `%`.
   */
  function MatchFrom(s: string, i: nat): (r: Option<(nat, nat)>)
    requires i <= |s|
    ensures r.Some? ==> MatchAt(s, i, r.value.0, r.value.1)
    ensures r.None? ==> !MatchesAt(s, i)
  {
    assert forall j, k :: MatchAt(s, i, j, k) ==>
        IsDigit(s[i]) && j == Span(s, i, IsDigit) && k == Span(s, j, IsSpace) by {
      forall j, k | MatchAt(s, i, j, k)
        ensures IsDigit(s[i]) && j == Span(s, i, IsDigit) && k == Span(s, j, IsSpace)
      {
        MatchAtSpans(s, i, j, k);
      }
    }
    if i < |s| && IsDigit(s[i]) then
      var j := Span(s, i, IsDigit);
      var k := Span(s, j, IsSpace);
      if k < |s| && s[k] == '%' then Some((j, k)) else None
    else
      None
  }

  /** `re.search` from position `from` on: the first position that starts a match. */
  function SearchFrom(s: string, from: nat): (r: Option<(nat, nat, nat)>)
    requires from <= |s|
    ensures r.Some? ==> from <= r.value.0 && MatchAt(s, r.value.0, r.value.1, r.value.2)
    ensures r.Some? ==> forall i :: from <= i < r.value.0 ==> !MatchesAt(s, i)
    ensures r.None? ==> forall i :: from <= i <= |s| ==> !MatchesAt(s, i)
    decreases |s| - from
  {
    match MatchFrom(s, from)
    case Some((j, k)) => Some((from, j, k))
    case None => if from == |s| then None else SearchFrom(s, from + 1)
  }

  /** `int(m.group(1))` for a group `s[i..j]` of digits. */
  function GroupValue(s: string, i: nat, j: nat): nat
    requires i <= j <= |s|
    requires forall m :: i <= m < j ==> IsDigit(s[m])
  {
    assert AllDigits(s[i..j]);
    DigitsValue(s[i..j])
  }

  /** Every match starts at a digit. */
  lemma MatchStartsWithDigit(s: string, i: nat)
    ensures MatchesAt(s, i) ==> i < |s| && IsDigit(s[i])
  {
  }

  /** A match whose group is preceded by a digit extends one position to the left. */
  lemma ExtendLeft(s: string, i: nat, j: nat, k: nat)
    requires MatchAt(s, i, j, k) && 0 < i
    ensures IsDigit(s[i - 1]) ==> MatchAt(s, i - 1, j, k)
  {
  }

  /** Two matches at the same position are the same match. */
  lemma MatchUnique(s: string, i: nat, j: nat, k: nat, j': nat, k': nat)
    requires MatchAt(s, i, j, k) && MatchAt(s, i, j', k')
    ensures j == j' && k == k'
  {
    MatchAtSpans(s, i, j, k);
    MatchAtSpans(s, i, j', k');
  }

  /** The search from the start stops at the first position where a match starts. */
  lemma SearchFindsLeftmost(s: string, i: nat)
    requires MatchesAt(s, i)
    requires forall i' :: 0 <= i' < i ==> !MatchesAt(s, i')
    ensures SearchFrom(s, 0).Some? && SearchFrom(s, 0).value.0 == i
  {
    var r := SearchFrom(s, 0);
    assert MatchesAt(s, r.value.0);
  }

  /** `int(PERCENT_RE.search(txt).group(1))`, or None when there is no match. */
  function FindPercent(s: string): Option<nat> {
    match SearchFrom(s, 0)
    case None => None
    case Some((i, j, k)) => Some(GroupValue(s, i, j))
  }

  /**
   * The percentage is the value of the leftmost digit run that is followed by
   * optional white space and `%`; there is none exactly when no such run exists.
   */
  lemma FindPercentSpec(s: string)
    ensures FindPercent(s).None? <==> forall i :: 0 <= i < |s| ==> !MatchesAt(s, i)
    ensures FindPercent(s).Some? ==> exists i: nat, j: nat, k: nat ::
      MatchAt(s, i, j, k) && (forall i' :: 0 <= i' < i ==> !MatchesAt(s, i')) &&
      (i == 0 || !IsDigit(s[i - 1])) && FindPercent(s).value == GroupValue(s, i, j)
  {
    match SearchFrom(s, 0)
    case None =>
    case Some((i, j, k)) =>
      assert MatchesAt(s, i);
      if 0 < i {
        ExtendLeft(s, i, j, k);
        assert !MatchesAt(s, i - 1);
      }
  }

  /** The leftmost match decides the percentage: the value of its group. */
  lemma FindPercentOfLeftmost(s: string, i: nat, j: nat, k: nat)
    requires MatchAt(s, i, j, k)
    requires forall i' :: 0 <= i' < i ==> !MatchesAt(s, i')
    ensures FindPercent(s) == Some(GroupValue(s, i, j))
  {
    assert MatchesAt(s, i);
    SearchFindsLeftmost(s, i);
    var r := SearchFrom(s, 0).value;
    MatchUnique(s, i, j, k, r.1, r.2);
  }

  /** Text with no digit, or with no percent sign, yields no percentage. */
  lemma NoDigitOrNoSignNoPercent(s: string)
    requires (forall m :: 0 <= m < |s| ==> !IsDigit(s[m])) || '%' !in s
    ensures FindPercent(s) == None
  {
    FindPercentSpec(s);
  }
}
