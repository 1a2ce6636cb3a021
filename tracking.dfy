/**
 * `track_progress`: poll the device, append a CSV row each time the reading
 * changes, and stop with a terminal row once the "Open" button shows. The device
 * is a finite sequence of snapshots, one per poll; the loop either meets an
 * "Open" button (terminated) or runs out of snapshots (still polling).
 */
module Tracking {
  import opened Wrappers
  import opened Text
  import PercentPattern
  import SizePattern
  import opened Progress

  /** One poll: whether a node with text "Open" exists, and the text of every node. */
  datatype Snapshot = Snapshot(openVisible: bool, nodes: seq<Option<string>>)

  /** What one pass of the loop body sees: the "Open" button, or else the reading. */
  datatype Poll = OpenShown | Shown(reading: Reading)

  /** A progress extractor: the script's is `GetPlayStoreProgress`. */
  type Extractor = seq<Option<string>> -> Reading

  /**
   * The "Open" check comes first; only without it is the progress read, with
   * the extractor `read`.
   */
  function Observe(snapshot: Snapshot, read: Extractor): (p: Poll)
    ensures p.OpenShown? <==> snapshot.openVisible
  {
    if snapshot.openVisible then OpenShown else Shown(read(snapshot.nodes))
  }

  /** What the loop sees on each snapshot in turn. */
  function Observations(ticks: seq<Snapshot>, read: Extractor): (polls: seq<Poll>)
    ensures |polls| == |ticks| && forall k :: 0 <= k < |ticks| ==> polls[k] == Observe(ticks[k], read)
  {
    seq(|ticks|, k requires 0 <= k < |ticks| => Observe(ticks[k], read))
  }

  /**
   * A row of the CSV file without its timestamp: the header, the row of a new
   * reading (percent and size), or the terminal row written when "Open" shows.
   */
  datatype Row = Header | Progress(percent: nat, size: Option<string>) | Complete

  const HeaderCells: seq<string> := ["Timestamp", "Progress (%)", "Size", "Status"]

  /** Python truth value of `size`: present and not empty. */
  predicate Truthy(size: Option<string>) {
    size.Some? && size.value != ""
  }

  /** The prefix every status string starts with. */
  const Downloading: string := "Downloading: "

  /** `f"Downloading: {percent}% of {size}" if size else f"Downloading: {percent}%"`. */
  function Status(percent: nat, size: Option<string>): string {
    if Truthy(size) then Downloading + Decimal(percent) + "% of " + size.value
    else Downloading + Decimal(percent) + "%"
  }

  /**
   * The cells `wr.writerow` receives for `row`, the clock's reading given as
   * `timestamp`: the header, `[now, percent, size or "", status]`, or
   * `[now, 100, "Complete", "Open button visible"]`.
   */
  function Cells(row: Row, timestamp: string): (cells: seq<string>)
    ensures |cells| == |HeaderCells|
    ensures row.Header? ==> cells == HeaderCells
    ensures row.Progress? ==>
      cells[0] == timestamp && Canonical(cells[1]) && DigitsValue(cells[1]) == row.percent &&
      cells[2] == (if Truthy(row.size) then row.size.value else "") &&
      cells[3] == Status(row.percent, row.size)
    ensures row.Complete? ==>
      cells[0] == timestamp && Canonical(cells[1]) && DigitsValue(cells[1]) == 100 &&
      cells[2..] == ["Complete", "Open button visible"]
  {
    match row
    case Header => HeaderCells
    case Progress(p, size) =>
      DecimalRoundTrip(p);
      [timestamp, Decimal(p), if Truthy(size) then size.value else "", Status(p, size)]
    case Complete =>
      DecimalRoundTrip(100);
      [timestamp, Decimal(100), "Complete", "Open button visible"]
  }

  /** The rows a poll loop appends, its final `last_progress`, and whether it returned. */
  datatype Outcome = Outcome(rows: seq<Row>, last: int, terminated: bool)

  /**
   * The loop body applied to each poll in turn, from `last_progress == last`:
   * "Open" ends the loop with the terminal row; otherwise no reading writes
   * nothing, and a reading whose percent differs from `last` is written and
   * becomes `last`.
   */
  function Replay(polls: seq<Poll>, last: int): Outcome
    decreases |polls|
  {
    if polls == [] then Outcome([], last, false)
    else match polls[0]
      case OpenShown => Outcome([Complete], last, true)
      case Shown(reading) =>
        if reading.percent.None? then Replay(polls[1..], last)
        else if reading.percent.value != last then
          var p := reading.percent.value;
          var rest := Replay(polls[1..], p);
          Outcome([Progress(p, reading.size)] + rest.rows, rest.last, rest.terminated)
        else Replay(polls[1..], last)
  }

  /** The CSV file, opened in append mode: what it holds and what gets written to it. */
  class CsvFile {
    var rows: seq<Row>

    /** `open("a")` on a file that already holds `existing`. */
    constructor OpenAppend(existing: seq<Row>)
      ensures rows == existing
    {
      rows := existing;
    }

    /** `wr.writerow(...)` followed by the flush: the row is appended, nothing else changes. */
    method WriteRow(row: Row)
      modifies this
      ensures rows == old(rows) + [row]
    {
      rows := rows + [row];
    }
  }

  /**
   * `track_progress` on a file that holds `existing` and a device that shows
   * `ticks`: the file ends up with exactly one new header row followed by the
   * rows `Replay` determines; the loop returns exactly when some snapshot shows
   * "Open", and then the terminal row is the last row of the file.
   */
  method TrackProgress(existing: seq<Row>, ticks: seq<Snapshot>) returns (content: seq<Row>, terminated: bool)
    ensures content == existing + [Header] + Replay(Observations(ticks, GetPlayStoreProgress), -1).rows
    ensures terminated == Replay(Observations(ticks, GetPlayStoreProgress), -1).terminated
    ensures content[|existing|] == Header
    ensures forall k :: |existing| < k < |content| ==> !content[k].Header?
    ensures terminated <==> exists k :: 0 <= k < |ticks| && ticks[k].openVisible
    ensures terminated ==> content[|content| - 1] == Complete
  {
    content, terminated := PollLoop(existing, ticks, GetPlayStoreProgress);
    TrackProgressShape(existing, ticks, GetPlayStoreProgress, content, terminated);
  }

  /**
   * The body of `track_progress` with the extractor it calls given as `read`:
   * open the file, write the header, then poll until "Open" shows or the
   * snapshots run out.
   */
  method PollLoop(existing: seq<Row>, ticks: seq<Snapshot>, read: Extractor) returns (content: seq<Row>, terminated: bool)
    ensures content == existing + [Header] + Replay(Observations(ticks, read), -1).rows
    ensures terminated == Replay(Observations(ticks, read), -1).terminated
  {
    ghost var polls := Observations(ticks, read);
    var f := new CsvFile.OpenAppend(existing);
    f.WriteRow(Header);
    var lastProgress: int := -1;
    var i := 0;
    while i < |ticks|
      invariant 0 <= i <= |ticks|
      invariant f.rows + Replay(polls[i..], lastProgress).rows == existing + [Header] + Replay(polls, -1).rows
      invariant Replay(polls[i..], lastProgress).terminated == Replay(polls, -1).terminated
    {
      ReplayAt(polls, i, lastProgress);
      if ticks[i].openVisible {
        f.WriteRow(Complete);
        return f.rows, true;
      }
      var reading := read(ticks[i].nodes);
      assert polls[i] == Shown(reading);
      if reading.percent.Some? {
        if reading.percent.value != lastProgress {
          ghost var written := f.rows;
          ghost var rest := Replay(polls[i + 1..], reading.percent.value).rows;
          f.WriteRow(Progress(reading.percent.value, reading.size));
          lastProgress := reading.percent.value;
          assert f.rows + rest == written + ([Progress(reading.percent.value, reading.size)] + rest);
        }
      }
      i := i + 1;
    }
    return f.rows, false;
  }

  /** One step of `Replay` at position `i`: the loop body on the `i`-th poll. */
  lemma ReplayAt(polls: seq<Poll>, i: nat, last: int)
    requires i < |polls|
    ensures polls[i].OpenShown? ==> Replay(polls[i..], last) == Outcome([Complete], last, true)
    ensures polls[i].Shown? && (polls[i].reading.percent.None? || polls[i].reading.percent.value == last) ==>
      Replay(polls[i..], last) == Replay(polls[i + 1..], last)
    ensures polls[i].Shown? && polls[i].reading.percent.Some? && polls[i].reading.percent.value != last ==>
      var p := polls[i].reading.percent.value;
      var rest := Replay(polls[i + 1..], p);
      Replay(polls[i..], last) == Outcome([Progress(p, polls[i].reading.size)] + rest.rows, rest.last, rest.terminated)
  {
    assert polls[i..][0] == polls[i] && polls[i..][1..] == polls[i + 1..];
  }

  /** What `ReplayShape` says about a run, stated for the file `TrackProgress` leaves behind. */
  lemma TrackProgressShape(existing: seq<Row>, ticks: seq<Snapshot>, read: Extractor, content: seq<Row>, terminated: bool)
    requires content == existing + [Header] + Replay(Observations(ticks, read), -1).rows
    requires terminated == Replay(Observations(ticks, read), -1).terminated
    ensures content[|existing|] == Header
    ensures forall k :: |existing| < k < |content| ==> !content[k].Header?
    ensures terminated <==> exists k :: 0 <= k < |ticks| && ticks[k].openVisible
    ensures terminated ==> content[|content| - 1] == Complete
  {
    var polls := Observations(ticks, read);
    var rows := Replay(polls, -1).rows;
    ReplayShape(polls, -1);
    assert forall k :: |existing| < k < |content| ==> content[k] == rows[k - |existing| - 1];
    assert (exists k :: 0 <= k < |ticks| && ticks[k].openVisible) <==>
           (exists k :: 0 <= k < |polls| && polls[k].OpenShown?);
  }

  /**
   * The rows of a run are records (so the header is written once per call), the
   * run terminates exactly when some poll shows "Open", and then the terminal row
   * is the last row and appears nowhere else.
   */
  lemma {:induction false} ReplayShape(polls: seq<Poll>, last: int)
    ensures var o := Replay(polls, last);
      (forall k :: 0 <= k < |o.rows| ==>
        o.rows[k].Progress? || (o.terminated && k == |o.rows| - 1 && o.rows[k] == Complete)) &&
      (o.terminated <==> exists k :: 0 <= k < |polls| && polls[k].OpenShown?) &&
      (o.terminated ==> |o.rows| > 0 && o.rows[|o.rows| - 1] == Complete)
    decreases |polls|
  {
    if polls != [] && polls[0].Shown? {
      var tail := polls[1..];
      assert forall k :: 1 <= k < |polls| ==> polls[k] == tail[k - 1];
      var reading := polls[0].reading;
      if reading.percent.None? || reading.percent.value == last {
        ReplayShape(tail, last);
      } else {
        var p := reading.percent.value;
        var row := Progress(p, reading.size);
        var rest := Replay(tail, p);
        ReplayShape(tail, p);
        assert forall k :: 1 <= k < |rest.rows| + 1 ==> ([row] + rest.rows)[k] == rest.rows[k - 1];
      }
    }
  }

  /** The rows of a run other than the terminal row. */
  function ProgressRows(o: Outcome): seq<Row> {
    if o.terminated && |o.rows| > 0 then o.rows[..|o.rows| - 1] else o.rows
  }

  /** The progress rows of a run that writes `row` first and then `rest`. */
  lemma ProgressRowsCons(row: Row, rest: Outcome)
    requires rest.terminated ==> |rest.rows| > 0
    ensures ProgressRows(Outcome([row] + rest.rows, rest.last, rest.terminated)) == [row] + ProgressRows(rest)
  {
    if rest.terminated {
      assert ([row] + rest.rows)[..|rest.rows|] == [row] + rest.rows[..|rest.rows| - 1];
    }
  }

  /**
   * Dedup: starting from `last`, each progress row's percent differs from the
   * one before it (the first from `last`).
   */
  ghost predicate ChangesOnly(rows: seq<Row>, last: int) {
    (forall k :: 0 <= k < |rows| ==> rows[k].Progress?) &&
    (|rows| > 0 ==> rows[0].percent != last) &&
    (forall k :: 0 < k < |rows| ==> rows[k].percent != rows[k - 1].percent)
  }

  /** `last_progress` after writing `rows` from `last`: the percent of the latest row. */
  function LastPercent(rows: seq<Row>, last: int): int
    requires forall k :: 0 <= k < |rows| ==> rows[k].Progress?
  {
    if rows == [] then last else rows[|rows| - 1].percent
  }

  /** Writing a row with a new percent in front of a deduplicated run keeps it deduplicated. */
  lemma ChangesOnlyCons(p: nat, size: Option<string>, rest: Outcome, last: int)
    requires p != last
    requires rest.terminated ==> |rest.rows| > 0
    requires ChangesOnly(ProgressRows(rest), p) && rest.last == LastPercent(ProgressRows(rest), p)
    ensures var o := Outcome([Progress(p, size)] + rest.rows, rest.last, rest.terminated);
      ChangesOnly(ProgressRows(o), last) && o.last == LastPercent(ProgressRows(o), last)
  {
    var row := Progress(p, size);
    ProgressRowsCons(row, rest);
    var body := ProgressRows(rest);
    assert forall k :: 0 < k < |[row] + body| ==> ([row] + body)[k] == body[k - 1];
  }

  /**
   * Consecutive progress rows never share a percent, and `last_progress` is
   * always the percent of the most recent progress row (or its start value).
   */
  lemma {:induction false} ReplayDedup(polls: seq<Poll>, last: int)
    ensures var o := Replay(polls, last);
      ChangesOnly(ProgressRows(o), last) && o.last == LastPercent(ProgressRows(o), last)
    decreases |polls|
  {
    if polls != [] && polls[0].Shown? {
      var tail := polls[1..];
      var reading := polls[0].reading;
      if reading.percent.None? || reading.percent.value == last {
        ReplayDedup(tail, last);
      } else {
        var p := reading.percent.value;
        var rest := Replay(tail, p);
        ReplayDedup(tail, p);
        ReplayShape(tail, p);
        assert Replay(polls, last) == Outcome([Progress(p, reading.size)] + rest.rows, rest.last, rest.terminated);
        ChangesOnlyCons(p, reading.size, rest, last);
      }
    }
  }

  /** `row` is the row written for the reading of some poll of `polls`. */
  ghost predicate RowOfSomePoll(polls: seq<Poll>, row: Row) {
    exists t :: 0 <= t < |polls| && polls[t].Shown? && polls[t].reading.percent.Some? &&
      row == Progress(polls[t].reading.percent.value, polls[t].reading.size)
  }

  /** Each progress row is the row of the reading of some poll that did not show "Open". */
  lemma {:induction false} ReplayRowsAreReadings(polls: seq<Poll>, last: int)
    ensures var rows := ProgressRows(Replay(polls, last));
      forall k :: 0 <= k < |rows| ==> RowOfSomePoll(polls, rows[k])
    decreases |polls|
  {
    if polls != [] && polls[0].Shown? {
      var tail := polls[1..];
      var reading := polls[0].reading;
      var writes := reading.percent.Some? && reading.percent.value != last;
      var next := if writes then reading.percent.value else last;
      var rest := Replay(tail, next);
      ReplayRowsAreReadings(tail, next);
      ReplayShape(tail, next);
      var body := ProgressRows(rest);
      forall k | 0 <= k < |body|
        ensures RowOfSomePoll(polls, body[k])
      {
        assert RowOfSomePoll(tail, body[k]);
        var t :| 0 <= t < |tail| && tail[t].Shown? && tail[t].reading.percent.Some? &&
          body[k] == Progress(tail[t].reading.percent.value, tail[t].reading.size);
        assert polls[t + 1] == tail[t];
      }
      if writes {
        var row := Progress(next, reading.size);
        ProgressRowsCons(row, rest);
        assert RowOfSomePoll(polls, row) by {
          assert polls[0].Shown? && row == Progress(polls[0].reading.percent.value, polls[0].reading.size);
        }
        assert forall k :: 0 < k < |[row] + body| ==> ([row] + body)[k] == body[k - 1];
      }
    }
  }

  /**
   * "Open" takes precedence: at the first poll that shows it, whatever progress
   * text the screen holds, exactly the terminal row is appended and the loop
   * ends; later polls are never looked at.
   */
  lemma {:induction false} OpenEndsReplay(pre: seq<Poll>, post: seq<Poll>, last: int)
    requires forall k :: 0 <= k < |pre| ==> pre[k].Shown?
    ensures Replay(pre + [OpenShown] + post, last) ==
      Outcome(Replay(pre, last).rows + [Complete], Replay(pre, last).last, true)
    decreases |pre|
  {
    var all := pre + [OpenShown] + post;
    if pre == [] {
      assert all[0] == OpenShown;
    } else {
      assert all[0] == pre[0] && all[1..] == pre[1..] + [OpenShown] + post;
      var reading := pre[0].reading;
      if reading.percent.None? || reading.percent.value == last {
        OpenEndsReplay(pre[1..], post, last);
      } else {
        OpenEndsReplay(pre[1..], post, reading.percent.value);
      }
    }
  }

  /** A poll without "Open" and without a reading writes nothing and leaves `last_progress` alone. */
  lemma {:induction false} SilentPollIsInvisible(pre: seq<Poll>, reading: Reading, post: seq<Poll>, last: int)
    requires reading.percent.None?
    ensures Replay(pre + [Shown(reading)] + post, last) == Replay(pre + post, last)
    decreases |pre|
  {
    var t := Shown(reading);
    if pre == [] {
      assert (pre + [t] + post)[0] == t && (pre + [t] + post)[1..] == post;
      assert pre + post == post;
    } else {
      assert (pre + [t] + post)[0] == pre[0] && (pre + [t] + post)[1..] == pre[1..] + [t] + post;
      assert (pre + post)[0] == pre[0] && (pre + post)[1..] == pre[1..] + post;
      if pre[0].Shown? {
        var r := pre[0].reading;
        if r.percent.None? || r.percent.value == last {
          SilentPollIsInvisible(pre[1..], reading, post, last);
        } else {
          SilentPollIsInvisible(pre[1..], reading, post, r.percent.value);
        }
      }
    }
  }

  /** Dedup: the same reading polled twice in a row is written at most once. */
  lemma RepeatedPollWritesOnce(reading: Reading, post: seq<Poll>, last: int)
    ensures Replay([Shown(reading), Shown(reading)] + post, last) == Replay([Shown(reading)] + post, last)
  {
    var t := Shown(reading);
    assert ([t, t] + post)[0] == t && ([t, t] + post)[1..] == [t] + post;
    assert ([t] + post)[0] == t && ([t] + post)[1..] == post;
  }

  /**
   * Because `last_progress` starts at -1, the first reading of a call is always
   * written, even a reading of 0 %, after any number of polls without a reading.
   */
  lemma {:induction false} FirstReadingIsWritten(pre: seq<Poll>, reading: Reading, post: seq<Poll>)
    requires forall k :: 0 <= k < |pre| ==> pre[k].Shown? && pre[k].reading.percent.None?
    requires reading.percent.Some?
    ensures var rows := Replay(pre + [Shown(reading)] + post, -1).rows;
      |rows| > 0 && rows[0] == Progress(reading.percent.value, reading.size)
    decreases |pre|
  {
    var all := pre + [Shown(reading)] + post;
    if pre == [] {
      assert all[0] == Shown(reading);
    } else {
      assert all[0] == pre[0] && all[1..] == pre[1..] + [Shown(reading)] + post;
      FirstReadingIsWritten(pre[1..], reading, post);
    }
  }

  /** The status text of a row reads back, through the same pattern, as the row's percent. */
  lemma StatusPercentRoundTrip(percent: nat, size: Option<string>)
    ensures PercentPattern.FindPercent(Status(percent, size)) == Some(percent)
  {
    var s := Status(percent, size);
    var d := Decimal(percent);
    var n := |Downloading|;
    var j := n + |d|;
    assert s[..n] == Downloading && s[n..j] == d && s[j] == '%';
    assert PercentPattern.MatchAt(s, n, j, j);
    assert forall i :: 0 <= i < n ==> !IsDigit(s[i]);
    forall i | 0 <= i < n
      ensures !PercentPattern.MatchesAt(s, i)
    {
      PercentPattern.MatchStartsWithDigit(s, i);
    }
    PercentPattern.FindPercentOfLeftmost(s, n, j, j);
    assert s[n..j] == d;
    DecimalRoundTrip(percent);
  }

  /** The part of a status text before its "of": no "of" occurs in it. */
  lemma StatusPrefixHasNoOf(percent: nat)
    ensures SizePattern.NoOf(Downloading + Decimal(percent) + "% ")
  {
    var d := Decimal(percent);
    var pre := Downloading + d + "% ";
    var n := |Downloading|;
    forall i | 0 <= i < |pre|
      ensures SizePattern.NoOfAt(pre, i)
    {
      if i < n {
        assert pre[i] == Downloading[i];
        assert pre[i + 1] == if i + 1 < n then Downloading[i + 1] else d[0];
      } else if i < n + |d| {
        assert pre[i] == d[i - n];
      } else {
        assert pre[i] == "% "[i - n - |d|];
      }
    }
  }

  /** A size the pattern captured reads back from the status text as the same size. */
  lemma StatusSizeRoundTrip(percent: nat, size: string)
    requires SizePattern.IsSizeText(size)
    ensures SizePattern.FindSize(Status(percent, Some(size))) == Some(size)
  {
    var s := Status(percent, Some(size));
    var pre := Downloading + Decimal(percent) + "% ";
    assert size != "" by {
      var a: nat, b: nat :| SizePattern.SizeShape(size, a, b);
    }
    assert s == pre + "of " + size;
    StatusPrefixHasNoOf(percent);
    SizePattern.FindSizeAfter(s, pre, size);
  }

  /** A screen whose only text is `txt`, without the "Open" button. */
  function Screen(txt: string): Snapshot {
    Snapshot(false, [Some(txt)])
  }

  /** A text without `%` gives no reading. */
  lemma ReadsNothing(txt: string)
    requires '%' !in txt
    ensures GetPlayStoreProgress([Some(txt)]) == NoReading
  {
    PercentPattern.NoDigitOrNoSignNoPercent(txt);
    SingleNode(txt);
  }

  /** The digits at the start of `s`, up to `j`, followed by `%`, are the percentage of `s`. */
  lemma LeadingPercent(s: string, j: nat, value: nat)
    requires 0 < j < |s| && s[j] == '%' && AllDigits(s[..j]) && DigitsValue(s[..j]) == value
    ensures PercentPattern.FindPercent(s) == Some(value)
  {
    assert forall m :: 0 <= m < j ==> s[..j][m] == s[m];
    assert PercentPattern.MatchAt(s, 0, j, j);
    PercentPattern.FindPercentOfLeftmost(s, 0, j, j);
  }

  /** "10%" reads as 10 % with no size. */
  lemma ReadsTen()
    ensures GetPlayStoreProgress([Some("10%")]) == Reading(Some(10), None)
  {
    var s := "10%";
    assert s[..2] == "10" && "10"[..1] == "1";
    LeadingPercent(s, 2, 10);
    assert SizePattern.NoOf(s) by {
      forall i | 0 <= i < |s|
        ensures SizePattern.NoOfAt(s, i)
      {
      }
    }
    assert s[..|s|] == s;
    SizePattern.NoMatchInPrefix(s, s);
    SizePattern.FindSizeSpec(s);
    SingleNode(s);
  }

  /** The size of "55% of 120 MB" is "120 MB". */
  lemma SizeOfFiftyFive()
    ensures SizePattern.FindSize("55% of 120 MB") == Some("120 MB")
  {
    var pre := "55% ";
    assert SizePattern.NoOf(pre) by {
      forall i | 0 <= i < |pre|
        ensures SizePattern.NoOfAt(pre, i)
      {
      }
    }
    assert SizePattern.SizeShape("120 MB", 3, 4);
    assert "55% of 120 MB" == pre + "of " + "120 MB";
    SizePattern.FindSizeAfter("55% of 120 MB", pre, "120 MB");
  }

  /** "55% of 120 MB" reads as 55 % of "120 MB". */
  lemma ReadsFiftyFive()
    ensures GetPlayStoreProgress([Some("55% of 120 MB")]) == Reading(Some(55), Some("120 MB"))
  {
    var s := "55% of 120 MB";
    assert s[..2] == "55" && "55"[..1] == "5";
    LeadingPercent(s, 2, 55);
    SizeOfFiftyFive();
    SingleNode(s);
  }

  /** The screens of the example session: "", "10%", "10%", "55% of 120 MB", then the "Open" button. */
  const ExampleTicks: seq<Snapshot> :=
    [Screen(""), Screen("10%"), Screen("10%"), Screen("55% of 120 MB"), Snapshot(true, [Some("55% of 120 MB")])]

  /** The example session with any extractor that reads the three example texts as the script does. */
  lemma ExampleRun(read: Extractor)
    requires read([Some("")]) == NoReading
    requires read([Some("10%")]) == Reading(Some(10), None)
    requires read([Some("55% of 120 MB")]) == Reading(Some(55), Some("120 MB"))
    ensures Replay(Observations(ExampleTicks, read), -1)
      == Outcome([Progress(10, None), Progress(55, Some("120 MB")), Complete], 55, true)
  {
    var polls := Observations(ExampleTicks, read);
    var ten := Reading(Some(10), None);
    assert polls[0] == Shown(NoReading);
    assert polls[1] == Shown(ten) && polls[2] == Shown(ten);
    assert polls[3] == Shown(Reading(Some(55), Some("120 MB")));
    assert polls[4] == OpenShown;
    ReplayAt(polls, 0, -1);
    ReplayAt(polls, 1, -1);
    ReplayAt(polls, 2, 10);
    ReplayAt(polls, 3, 10);
    ReplayAt(polls, 4, 55);
    assert polls[0..] == polls;
  }

  /**
   * The example session end to end: three rows (10 %, 55 % of "120 MB", the
   * terminal row), and the loop returns at the fifth poll.
   */
  lemma ExampleSession()
    ensures Replay(Observations(ExampleTicks, GetPlayStoreProgress), -1)
      == Outcome([Progress(10, None), Progress(55, Some("120 MB")), Complete], 55, true)
  {
    ReadsNothing("");
    ReadsTen();
    ReadsFiftyFive();
    ExampleRun(GetPlayStoreProgress);
  }
}
