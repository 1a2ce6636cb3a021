/**
 * `get_play_store_progress`: the reading (percent, size) of one UI snapshot.
 * The snapshot is the `text` attribute of every node of the UI hierarchy, in
 * document order; a node without text has `None`.
 */
module Progress {
  import opened Wrappers
  import opened PercentPattern
  import opened SizePattern

  /** The pair `(percent, size)`; `(None, None)` means nothing readable this frame. */
  datatype Reading = Reading(percent: Option<nat>, size: Option<string>)

  const NoReading := Reading(None, None)

  /** `str(node.text or "")`. */
  function NodeText(text: Option<string>): string {
    text.GetOr("")
  }

  /** The texts of the nodes whose text contains `%` (the XPath `contains(@text,"%")` filter), in order. */
  function PercentBearing(nodes: seq<Option<string>>): (r: seq<string>)
    ensures |r| <= |nodes|
    ensures forall k :: 0 <= k < |r| ==> '%' in r[k]
    ensures (forall k :: 0 <= k < |nodes| ==> '%' !in NodeText(nodes[k])) ==> r == []
    ensures forall t :: t in r <==> exists k :: 0 <= k < |nodes| && t == NodeText(nodes[k]) && '%' in t
    ensures |nodes| > 0 && '%' in NodeText(nodes[0]) ==> |r| > 0 && r[0] == NodeText(nodes[0])
  {
    if nodes == [] then []
    else if '%' in NodeText(nodes[0]) then [NodeText(nodes[0])] + PercentBearing(nodes[1..])
    else PercentBearing(nodes[1..])
  }

  /** The reading of one node's text: its percentage and, from the same text, its size. */
  function ReadText(txt: string): Option<Reading>
  {
    match FindPercent(txt)
    case None => None
    case Some(p) => Some(Reading(Some(p), FindSize(txt)))
  }

  /**
   * The loop over the selected nodes: the first text with a percentage decides
   * the reading, a text with `%` but no percentage is skipped.
   */
  function FirstReading(texts: seq<string>): Reading {
    if texts == [] then NoReading
    else
      match ReadText(texts[0]) {
        case Some(reading) => reading
        case None => FirstReading(texts[1..])
      }
  }

  /**
   * There is a reading exactly when some text has a percentage; it is then the
   * reading of the first such text, and without one it is `(None, None)`.
   */
  lemma {:induction false} FirstReadingSpec(texts: seq<string>)
    ensures var r := FirstReading(texts);
      (r.percent.None? <==> forall k :: 0 <= k < |texts| ==> ReadText(texts[k]).None?) &&
      (r.percent.None? ==> r == NoReading) &&
      (r.percent.Some? ==>
        exists k :: 0 <= k < |texts| && ReadText(texts[k]) == Some(r) &&
          (forall k' :: 0 <= k' < k ==> ReadText(texts[k']).None?))
    decreases |texts|
  {
    if texts != [] && ReadText(texts[0]).None? {
      FirstReadingSpec(texts[1..]);
      assert forall k :: 1 <= k < |texts| ==> texts[k] == texts[1..][k - 1];
      if FirstReading(texts).percent.Some? {
        var k :| 0 <= k < |texts| - 1 && ReadText(texts[1..][k]) == Some(FirstReading(texts)) &&
          (forall k' :: 0 <= k' < k ==> ReadText(texts[1..][k']).None?);
        assert ReadText(texts[k + 1]) == Some(FirstReading(texts));
      }
    }
  }

  /** `get_play_store_progress(d)` on a snapshot. */
  function GetPlayStoreProgress(nodes: seq<Option<string>>): Reading {
    FirstReading(PercentBearing(nodes))
  }

  /** The texts of all nodes, selected by the query or not. */
  function Texts(nodes: seq<Option<string>>): (r: seq<string>)
    ensures |r| == |nodes| && forall k :: 0 <= k < |nodes| ==> r[k] == NodeText(nodes[k])
  {
    seq(|nodes|, k requires 0 <= k < |nodes| => NodeText(nodes[k]))
  }

  /**
   * The XPath filter does not change the reading: a text without `%` never holds
   * a percentage, so the first node with a percentage is the same with or without it.
   */
  lemma {:induction false} FilterIsTransparent(nodes: seq<Option<string>>)
    ensures GetPlayStoreProgress(nodes) == FirstReading(Texts(nodes))
    decreases |nodes|
  {
    if nodes != [] {
      var t := NodeText(nodes[0]);
      assert Texts(nodes) == [t] + Texts(nodes[1..]);
      FilterIsTransparent(nodes[1..]);
      if '%' !in t {
        NoDigitOrNoSignNoPercent(t);
      }
    }
  }

  /** First match wins: nodes after a node with a percentage are never looked at. */
  lemma {:induction false} FirstReadingAppend(a: seq<string>, b: seq<string>)
    ensures FirstReading(a + b) ==
      if FirstReading(a).percent.Some? then FirstReading(a) else FirstReading(b)
    decreases |a|
  {
    if a == [] {
      assert a + b == b;
    } else {
      assert (a + b)[0] == a[0];
      if ReadText(a[0]).Some? {
        assert FirstReading(a + b) == ReadText(a[0]).value == FirstReading(a);
      } else {
        assert (a + b)[1..] == a[1..] + b;
        calc {
          FirstReading(a + b);
          FirstReading(a[1..] + b);
          { FirstReadingAppend(a[1..], b); }
          if FirstReading(a[1..]).percent.Some? then FirstReading(a[1..]) else FirstReading(b);
        }
      }
    }
  }

  /** The reading of a snapshot is the reading of its first node that has a percentage. */
  lemma GetPlayStoreProgressSpec(nodes: seq<Option<string>>)
    ensures var r := GetPlayStoreProgress(nodes);
      (r.percent.None? <==> forall k :: 0 <= k < |nodes| ==> FindPercent(NodeText(nodes[k])).None?) &&
      (r.percent.None? ==> r.size.None?) &&
      (r.percent.Some? ==>
        exists k :: 0 <= k < |nodes| &&
          r == Reading(FindPercent(NodeText(nodes[k])), FindSize(NodeText(nodes[k]))) &&
          FindPercent(NodeText(nodes[k])).Some? &&
          (forall k' :: 0 <= k' < k ==> FindPercent(NodeText(nodes[k'])).None?))
  {
    FilterIsTransparent(nodes);
    FirstReadingSpec(Texts(nodes));
  }

  /** A screen with a single text reads as that text's percentage and size. */
  lemma SingleNode(txt: string)
    ensures GetPlayStoreProgress([Some(txt)]) ==
      if FindPercent(txt).Some? then Reading(FindPercent(txt), FindSize(txt)) else NoReading
  {
    var nodes := [Some(txt)];
    assert nodes[1..] == [];
    if '%' !in txt {
      NoDigitOrNoSignNoPercent(txt);
      assert PercentBearing(nodes) == [];
    } else {
      assert PercentBearing(nodes) == [txt];
      assert [txt][1..] == [];
      assert FirstReading([]) == NoReading;
      if FindPercent(txt).Some? {
        assert ReadText(txt) == Some(Reading(FindPercent(txt), FindSize(txt)));
      }
    }
  }
}
