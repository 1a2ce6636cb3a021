# Play Store install tracker — a Dafny model

`ps_auto.py` opens a Play Store detail page on an Android device. It presses the
install button, then polls the UI to record download progress in a CSV file
until the "Open" button appears. This project models the core of that script and
proves properties of the model:

- **The two regular expressions.** `PERCENT_RE` (`(\d+)\s*%`) and `SIZE_RE`
  (`of\s+([\d.]+\s*[MG]B)`, case-insensitive) are modules `PercentPattern` and
  `SizePattern`. Each has a ghost predicate "a match starts at `i`" (what the
  pattern accepts) and a deterministic scanner built from greedy spans. The
  scanner (`SearchFrom`, then `FindPercent` / `FindSize`) is proved to return
  the leftmost match and its group, as `re.search(...).group(1)` does.
  Backtracking can never help these two patterns, because the character after
  each greedy run cannot start the next element. So the greedy spans are the
  only match at a position, and that is proved too (`MatchUnique`).
- **`get_play_store_progress`** (module `Progress`). The screen is the `text`
  of every UI node, in document order. The XPath filter keeps the texts that
  contain `%`; the first text with a percentage gives `(percent, size)`, taken
  from that same text. With no such text the result is `(None, None)`.
- **`track_progress`** (module `Tracking`).
  - `CsvFile` is the CSV file opened in append mode; `WriteRow` appends a row.
  - `PollLoop` is the `while` loop: a mutable `lastProgress` starting at -1, the
    "Open" check first, and a row only when the percent changes.
  - `PollLoop` is proved equal to the pure function `Replay`, which the
    dedup, precedence and shape lemmas are about.
  - The device is a finite sequence of snapshots, one per poll. The
    `while True` loop is run over it, and the model reports whether the loop
    returned.
  - A file row is kept as a logical `Row`. `Cells` gives the four strings
    `csv.writer` receives for it, with the clock's reading as an opaque
    `timestamp`.
  - `Status` is the status text. `StatusPercentRoundTrip` and
    `StatusSizeRoundTrip` show that the percent and size read back out of the
    status text through the same two patterns.
- **`tap_install_button`** (module `InstallButton`). The screen is the set of
  texts for which a node exists. The decision is `Click(text)`,
  `AlreadyInstalled` (the `sys.exit(0)` path) or `Failure(message)` (the
  `RuntimeError`). The labels are tried in the order Update, Install, Open.

Modules: `Wrappers` (Option), `Text` (ASCII character classes, greedy spans,
`int`/`str` on decimal numerals), `PercentPattern`, `SizePattern`, `Progress`,
`Tracking`, `InstallButton`.

Two behaviours of the script worth knowing, both kept in the model:

- `track_progress` writes the header row on every call, also when the file
  already has rows (ps_auto.py:85-87). `TrackProgress` states that exactly one
  header is appended per call, after the existing rows.
- The terminal row is `[now, 100, "Complete", "Open button visible"]`
  (ps_auto.py:93-94).

## Model

| member | source | states |
|---|---|---|
| Text.Span | ps_auto.py:55-56 | the greedy run of a character class: every character in it matches, and the one after it does not (or the text ends) |
| Text.SpanUnique | ps_auto.py:55-56 | any run of the class that stops at a non-matching character is the greedy one |
| Text.Decimal | ps_auto.py:104-107 | `str(n)` is a non-empty digit string with no leading zero (unless n is 0) |
| Text.DecimalRoundTrip | ps_auto.py:70 | `int(str(n)) == n` |
| Text.DigitsValueRoundTrip | ps_auto.py:70 | `str(int(ds)) == ds` for every digit string without a leading zero |
| PercentPattern.MatchFrom | ps_auto.py:55 | the scanner at position i returns a match exactly when the pattern matches at i, and only a real match |
| PercentPattern.SearchFrom | ps_auto.py:66 | the search returns the first position from `from` where a match starts; no result means no match from `from` on |
| PercentPattern.MatchUnique | ps_auto.py:55 | at a given position the pattern has exactly one match, so its group is determined |
| PercentPattern.FindPercentSpec | ps_auto.py:55-70 | no percentage exactly when no match exists; otherwise the percentage is the value of the leftmost match's digit group, and that group does not follow another digit |
| PercentPattern.FindPercentOfLeftmost | ps_auto.py:66-70 | given any match with no match before it, the percentage is the value of its group |
| PercentPattern.NoDigitOrNoSignNoPercent | ps_auto.py:64-68 | a text without digits, or without `%`, gives no percentage |
| SizePattern.MatchFrom | ps_auto.py:56 | the scanner at position i ("of" in either case, white space, `[\d.]+`, white space, MB/GB in either case) returns a match exactly when one exists there |
| SizePattern.SearchFrom | ps_auto.py:71 | the search returns the first position from `from` where a match starts; no result means no match from `from` on |
| SizePattern.MatchUnique | ps_auto.py:56 | at a given position the pattern has exactly one match |
| SizePattern.FindSizeSpec | ps_auto.py:56-72 | no size exactly when no match exists; otherwise the size is the group of the leftmost match, has the shape `[\d.]+\s*[MG]B` and is at least 3 characters long |
| SizePattern.FindSizeOfLeftmost | ps_auto.py:71-72 | given any match with no match before it, the size is its group |
| SizePattern.FindSizeAfter | ps_auto.py:71-72 | a size right after "of " in a text with no earlier "of" is the size found |
| Progress.PercentBearing | ps_auto.py:64-65 | the XPath selection holds exactly the node texts that contain `%`; it is never longer than the node list, begins with the first node's text when that text has `%`, and is empty when no text has `%` |
| Progress.FirstReadingSpec | ps_auto.py:64-75 | the loop over selected texts returns the reading of the first text with a percentage, skips texts without one, and gives `(None, None)` exactly when none has one |
| Progress.FirstReadingAppend | ps_auto.py:64-73 | first match wins: texts after one with a percentage never change the result |
| Progress.FilterIsTransparent | ps_auto.py:63-68 | the `%` filter gives the same reading as scanning every node's text |
| Progress.GetPlayStoreProgressSpec | ps_auto.py:58-75 | the reading is `(percent, size)` of the first node whose text has a percentage, both from that one text; with none it is `(None, None)` and never a size without a percent |
| Progress.SingleNode | ps_auto.py:64-75 | a screen with one text reads as that text's percentage and size, or `(None, None)` when it has no percentage |
| Tracking.Observe | ps_auto.py:92-98 | a poll shows "Open" exactly when the button exists; only otherwise is the progress read |
| Tracking.Observations | ps_auto.py:90-98 | one observation per snapshot, in order |
| Tracking.Cells | ps_auto.py:87-107 | the header cells; for a reading: timestamp, `str(percent)` (a numeral without leading zeros whose value is the percent), `size or ""`, the status text; for the terminal row: timestamp, `str(100)`, "Complete", "Open button visible" |
| Tracking.CsvFile.OpenAppend | ps_auto.py:85 | opening in append mode keeps the rows already in the file |
| Tracking.CsvFile.WriteRow | ps_auto.py:106-108 | `writerow` appends the row and changes nothing else |
| Tracking.PollLoop | ps_auto.py:83-112 | the loop with a mutable `last_progress` appends the header and then exactly the rows `Replay` gives, and returns exactly when `Replay` terminates |
| Tracking.TrackProgress | ps_auto.py:81-112 | the file ends with its old rows, one header and `Replay`'s rows; no other header follows; the call returns exactly when some snapshot shows "Open", and then the last row is the terminal row |
| Tracking.ReplayAt | ps_auto.py:92-110 | one pass of the loop body: "Open" ends with the terminal row; no reading or an unchanged percent writes nothing; a new percent writes its row and becomes `last_progress` |
| Tracking.TrackProgressShape | ps_auto.py:87-96 | header first, no other header, termination exactly on "Open", terminal row last |
| Tracking.ReplayShape | ps_auto.py:87-96 | every row written is a progress row except a terminal row, which is last; termination happens exactly when some poll shows "Open" |
| Tracking.OpenEndsReplay | ps_auto.py:92-96 | at the first poll showing "Open" exactly one terminal row is appended, whatever progress text is on screen, and later polls are ignored |
| Tracking.ReplayDedup | ps_auto.py:83-110 | no two consecutive progress rows share a percent, the first differs from the starting `last_progress`, and `last_progress` is always the latest row's percent |
| Tracking.ChangesOnlyCons | ps_auto.py:103-110 | writing a row whose percent differs from `last_progress` in front of a deduplicated run keeps the rows deduplicated and `last_progress` equal to the latest row's percent |
| Tracking.RepeatedPollWritesOnce | ps_auto.py:103-110 | the same reading polled twice in a row writes what one poll writes |
| Tracking.FirstReadingIsWritten | ps_auto.py:83-103 | with `last_progress` starting at -1, the first reading of a call is always written, 0 % included |
| Tracking.SilentPollIsInvisible | ps_auto.py:98-101 | a poll with no reading changes neither the rows nor `last_progress` |
| Tracking.ReplayRowsAreReadings | ps_auto.py:98-107 | every progress row carries the percent and size of the reading of some poll |
| Tracking.StatusPercentRoundTrip | ps_auto.py:104-105 | the percentage pattern reads the row's percent back from its status text |
| Tracking.StatusSizeRoundTrip | ps_auto.py:104-105 | the size pattern reads a captured size back from the status text unchanged |
| Tracking.ExampleSession | ps_auto.py:58-112 | screens showing the texts "", "10%", "10%", "55% of 120 MB" and then the "Open" button, read by `get_play_store_progress`, give three rows: 10 %, 55 % of "120 MB", the terminal row; the loop returns |
| Tracking.ReadsFiftyFive | ps_auto.py:64-73 | the text "55% of 120 MB" reads as percent 55 with size "120 MB" |
| Tracking.SizeOfFiftyFive | ps_auto.py:71-72 | the size captured from "55% of 120 MB" is "120 MB" |
| Tracking.LeadingPercent | ps_auto.py:66-70 | a text that starts with digits directly followed by `%` has those digits' value as its percentage |
| Tracking.ReadsTen | ps_auto.py:64-75 | the text "10%" reads as percent 10 with no size |
| Tracking.ReadsNothing | ps_auto.py:64-75 | a screen whose one text has no `%` reads as `(None, None)` |
| InstallButton.Decide | ps_auto.py:41-49 | the error is raised, with its message, exactly when no label is on screen |
| InstallButton.DecideFirstPresent | ps_auto.py:41-48 | the first label on screen decides: "Open" means already installed, any other label is clicked |
| InstallButton.TapInstallButtonSpec | ps_auto.py:36-49 | Update > Install > Open: Update is clicked whenever shown, Install only without Update, Open is never clicked and means installed only when neither is shown, and the error occurs exactly when none of the three is shown |
| InstallButton.DecideIgnoresOtherTexts | ps_auto.py:41-42 | texts other than the button labels do not change the decision |

## Left out

- `adb_shell`, `launch_play_details`, `u2.connect`, `wait_activity`, `.click()`
  and the XPath engine are device I/O and foreign library calls. A screen is
  given as its node texts and an "Open" flag (`Snapshot`), or as the set of
  texts present (`InstallButton`). A click is the decision `Click(text)`.
- `time.sleep`, `print` and `f.flush()` have no effect on the rows and are not
  modelled.
- `datetime.now().isoformat()` is an opaque `timestamp` parameter of `Cells`.
  The file holds logical rows; CSV quoting and line endings are not modelled.
- `sys.exit(0)` and `raise RuntimeError` are the decisions `AlreadyInstalled`
  and `Failure(message)`; the caller acts on them.
- The argument parser and the `__main__` block are left out (command-line
  handling).
- Python's `\d`, `\s`, `int()` and `re.I` follow Unicode. The model covers
  ASCII digits, ASCII white space and ASCII case folding only.
- `Tracking.TrackProgress`: the `while True` loop runs over a finite sequence
  of snapshots. When the snapshots run out, the model stops and reports "not
  terminated"; the real loop keeps polling.
- `Tracking.PollLoop` takes the progress extractor as a parameter.
  `TrackProgress` calls it with `GetPlayStoreProgress`, as the script does.
- `Tracking.TrackProgress`: a device failure is not modelled. In the script,
  `d(text="Open").exists` (ps_auto.py:92) and the XPath query (ps_auto.py:64)
  run with no exception handling, so a failure raises out of `track_progress`
  and leaves the rows written so far. In the model, a failure at poll k is
  like running over `ticks[..k]` with "not terminated"; the exception itself
  is not modelled.
- `Text.DigitsValue`, `Text.Decimal`: unbounded. Python 3.11 and later raise
  `ValueError` in `int()` (ps_auto.py:70) and `str()` (ps_auto.py:104) for
  numbers of more than 4300 digits. The model has no such limit.
