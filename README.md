# osmo health monitor — a Dafny model

The monitor is a small terminal UI for an Osmocom container (ui/osmo.py and ui/main.py).
Once per cycle it:

1. runs `docker compose top osmo` and parses the fixed-width process table it prints (`Osmo._read_status`);
2. compares every observed `CMD` against a hard-coded table of seventeen expected command lines and builds a health record per name (`Osmo.getStatus`);
3. prints a colour-coded status table (`renderStatus`).

This project models those three functions and proves what they promise.

- `wrappers.dfy` — `Option` and `Result`.
- `pystr.dfy` (module `PyStr`) — the Python `str` operations the code relies on:
  - `split("\n")`;
  - the substring test `in`;
  - clamped slicing;
  - `strip()`, using the exact `str.isspace` character set, which is also what `\s` matches;
  - the `>` alignment of format specifications;
  - `str()` of a count.
- `osmo_table.dfy` (module `OsmoTable`) — `_read_status`:
  - the header is tokenised by repeating `re.match(r"(\S+)(\s*)", header)` (`ParseHeader`, specified by `HeaderColumns`);
  - each data line up to the first empty one is sliced at the column offsets into a row of stripped values (`SliceLine` and `SliceLines`, specified by `SliceRow` and `SliceRows`);
  - the whole function is `ReadStatus`, specified by `StatusRows`.
- `osmo_health.dfy` (module `OsmoHealth`) — `getStatus`:
  - the Python dictionary `healthdata` is a `Health` value: the names in insertion order plus a map from name to record;
  - the expected table is `ExpectedProcesses`, in the order of the dictionary literal;
  - the first loop is `InitHealth` (specified by `Init`);
  - the inner matching loop is `MatchRow` (specified by `Bump`);
  - the row loop is `ClassifyRows` (specified by `Classified` and `Classify`);
  - the whole function is `GetStatus`, specified by `HealthOf`.
- `render.dfy` (module `Render`) — `renderStatus`:
  - the output is the sequence of strings the successive `print` calls write, each with its terminator;
  - the loop body is `PrintEntry` (specified by `RowBlock`), the whole function `RenderStatus` (specified by `Rendered`).

`GetStatus`, `ClassifyRows` and the lemmas about classification take the expected table as a parameter `t`. `getStatus` is the case `t == ExpectedProcesses`. The lemmas that need the table to be a proper dictionary ask for distinct names and no name of the form `???? (k)`. `ExpectedNamesDistinct` and `ExpectedNamesNotSynthetic` show that `ExpectedProcesses` meets both. A `t` with a repeated name stands for no Python dictionary: a dict literal keeps only the last value of a repeated key, while `Bump` and `Expects` would still match the earlier pair. So `GetStatus` and `ClassifyRows` model `getStatus` only for tables with distinct names, which `ExpectedProcesses` has.

The command line under an unhealthy row is printed before the reset code (ui/main.py:44-47), so it is still coloured; see `RowBlockShape`.

## Model

| member | source | states |
|---|---|---|
| PyStr.IsSpace | ui/osmo.py:47 | the whitespace of `\s` and of `str.strip()`: space, tab to carriage return, 0x1C to 0x1F and the Unicode space and separator characters |
| PyStr.Split | ui/osmo.py:31 | `split` always yields at least one piece |
| PyStr.JoinSplit | ui/osmo.py:31 | joining the pieces with the separator gives back the text: splitting loses nothing |
| PyStr.SplitNoSeparator | ui/osmo.py:31 | no piece contains the separator |
| PyStr.SplitCount | ui/osmo.py:31 | there is one more piece than there are separators |
| PyStr.Contains | ui/osmo.py:35 | `t in s`: `t` is a prefix of `s` or occurs in what follows its first character |
| PyStr.ContainsAt | ui/osmo.py:35 | `t in s` holds exactly when `t` occurs in `s` at some offset |
| PyStr.Slice | ui/osmo.py:70-72 | the length of `s[lo:hi]` with clamped bounds: `min(hi, len(s)) - lo`, or 0 when the range is empty or starts past the end |
| PyStr.SliceAppend | ui/osmo.py:70-72 | two adjacent slices make up the slice spanning both |
| PyStr.SliceSplit | ui/osmo.py:70-72 | the slice up to an offset followed by the rest from there is the slice to the end |
| PyStr.LStrip | ui/osmo.py:73 | never longer than the input |
| PyStr.RStrip | ui/osmo.py:73 | never longer than the input |
| PyStr.LStripShape | ui/osmo.py:73 | the result is a suffix of the input, everything removed is whitespace, and the result does not start with whitespace |
| PyStr.RStripShape | ui/osmo.py:73 | the result is a prefix of the input, everything removed is whitespace, and the result does not end with whitespace |
| PyStr.Strip | ui/osmo.py:73 | never longer than the input |
| PyStr.StripShape | ui/osmo.py:73 | `strip()` leaves a contiguous part of the input that is empty or neither starts nor ends with whitespace, and everything removed at either end is whitespace |
| PyStr.StripBlank | ui/osmo.py:73 | a value made only of whitespace strips to the empty string |
| PyStr.RJust | ui/main.py:29 | a right-justified field is as wide as the field or the text, whichever is wider |
| PyStr.RJustShape | ui/main.py:43 | the text ends the field and only spaces come before it |
| PyStr.NatToString | ui/main.py:43 | `str(count)` is a non-empty run of decimal digits without a leading zero |
| PyStr.DecimalValueOfNatToString | ui/main.py:43 | reading the printed digits back gives the count |
| PyStr.NatToStringInjective | ui/osmo.py:128 | different counters print differently |
| PyStr.NatToStringDigits | ui/main.py:43 | a number below 10^k, for k at least 1, prints in at most k digits |
| PyStr.NatToStringLength | ui/main.py:43 | a count below 100000 prints in at most five characters, so it fits the `>5` field |
| OsmoTable.Run | ui/osmo.py:47 | a run of `\S` or `\s` characters lies within the text |
| OsmoTable.RunMaximal | ui/osmo.py:47 | the run is maximal: every character in it is of the kind matched and the next one is not |
| OsmoTable.MatchToken | ui/osmo.py:47-49 | `(\S+)(\s*)` fails exactly when the header left is empty or starts with whitespace; a match has a non-empty name and ends within the text |
| OsmoTable.MatchTokenMaximal | ui/osmo.py:47-51 | group 1 is the longest leading run of non-whitespace, and the match takes all the whitespace after it |
| OsmoTable.NextPos | ui/osmo.py:51 | after a match, tokenising resumes strictly further on and within the header |
| OsmoTable.NextColumn | ui/osmo.py:47-57 | the column matched at an offset: its name is group 1, it starts at the offset, and its width is the whole match unless the header ends there, when it is None |
| OsmoTable.ColumnsAt | ui/osmo.py:45-60 | the columns of the header from an offset on: none when the rest is empty or the match fails, otherwise the matched column followed by the columns from where the match ended |
| OsmoTable.HeaderColumns | ui/osmo.py:40-60 | the columns of the header line, found from offset 0 |
| OsmoTable.ParseHeader | ui/osmo.py:40-60 | the header loop returns the columns found by matching again and again from offset 0 |
| OsmoTable.LoopStep | ui/osmo.py:50-60 | one round of the header loop moves the matched column from the pending columns to the columns found |
| OsmoTable.ColumnsAtEmpty | ui/osmo.py:45-49 | no column is found exactly when the header left is empty or starts with whitespace |
| OsmoTable.NextToken | ui/osmo.py:47-51 | after a match, the header either ends or continues with the next name |
| OsmoTable.ColumnsAtTiled | ui/osmo.py:52-60 | the columns lie side by side: each starts where the previous one's width ends, every width but the last is positive, and only the last is `None` |
| OsmoTable.NextColumnLabels | ui/osmo.py:47-56 | the text under a matched column is its name followed only by whitespace, and the name is non-empty without whitespace |
| OsmoTable.ColumnsAtLabels | ui/osmo.py:45-57 | every column found has a valid name and labels the header |
| OsmoTable.HeaderColumnsShape | ui/osmo.py:40-60 | an empty header or one starting with whitespace yields no column; any other yields tiled, labelled columns whose spans put back together give the header |
| OsmoTable.SpansCoverFrom | ui/osmo.py:68-72 | the spans of columns tiled from an offset cover the line from that offset to its end |
| OsmoTable.SpansCover | ui/osmo.py:68-72 | for any data line, the slices cut by a well-formed header, put back together in column order, give the line itself |
| OsmoTable.Span | ui/osmo.py:69-72 | the text under a column: the clamped slice from its start to the end of the line when its width is None, or of its width otherwise |
| OsmoTable.SliceRow | ui/osmo.py:67-73 | the row of one data line: each column in order sets its name to the stripped text under it, a later column overwriting an earlier one of the same name |
| OsmoTable.SliceRowKeys | ui/osmo.py:67-73 | the keys of a row are exactly the column names |
| OsmoTable.SliceLine | ui/osmo.py:67-73 | the inner loop builds the row that maps each column name to its stripped slice, later columns overwriting earlier ones |
| OsmoTable.SliceRowValue | ui/osmo.py:68-73 | a column whose name no later column repeats holds the stripped text of the line under it |
| OsmoTable.SliceRowPastEnd | ui/osmo.py:70-73 | a line too short to reach a column gives the empty string for it |
| OsmoTable.DataLines | ui/osmo.py:64-66 | there are no more data lines than lines after the header |
| OsmoTable.DataLinesShape | ui/osmo.py:64-66 | the data lines are a prefix of the lines after the header, none empty, and the line after them is empty or missing |
| OsmoTable.DataLinesExact | ui/osmo.py:64-66 | the first `k` lines are the data lines when they are non-empty and the next one is empty or missing |
| OsmoTable.SliceRows | ui/osmo.py:63-74 | one row per data line |
| OsmoTable.SliceRowsAt | ui/osmo.py:74 | the i-th row is the i-th line sliced |
| OsmoTable.SliceLines | ui/osmo.py:63-76 | the line loop slices every line up to the first empty one, in order, and stops there |
| OsmoTable.TableRows | ui/osmo.py:62-74 | the rows of the data lines after the header, sliced at the header's columns |
| OsmoTable.StatusRows | ui/osmo.py:27-76 | a failed command, fewer than two lines, or a second line without "CMD" is an error, checked in that order; otherwise the table's rows |
| OsmoTable.ReadStatus | ui/osmo.py:27-76 | a non-zero exit, fewer than two lines, or a second line without "CMD" each fail with their own error; otherwise the rows are those of the data lines sliced by the header |
| OsmoTable.RejectsSingleLine | ui/osmo.py:31-34 | output is rejected as too short exactly when it contains no line break, the empty output included |
| OsmoTable.RowsFollowLines | ui/osmo.py:62-76 | there is one row per line up to the first empty line, the lines after it are ignored, and every row has exactly the header's column names as keys |
| OsmoHealth.Status.Text | ui/osmo.py:114-131 | the status strings stored in a record: "running" for a matched process, "not found" otherwise |
| OsmoHealth.ExpectedProcesses | ui/osmo.py:81-99 | the seventeen (name, command line) pairs of the dictionary literal, in literal order |
| OsmoHealth.Put | ui/osmo.py:114 | `h[k] = v` keeps every name listed once and the listed names equal to those with a record |
| OsmoHealth.Names | ui/osmo.py:81-99 | the names of the table, in order |
| OsmoHealth.Expects | ui/osmo.py:119-126 | the `found` flag: some entry of the table has the row's command |
| OsmoHealth.Init | ui/osmo.py:113-114 | the first loop gives consistent data in which every expected name has a record |
| OsmoHealth.InitHealth | ui/osmo.py:113-114 | the first loop of `getStatus` computes `Init` |
| OsmoHealth.InitShape | ui/osmo.py:113-114 | with distinct names, the first loop lists the expected names in table order, each with its command, not found, expected, count 0 |
| OsmoHealth.InitKeys | ui/osmo.py:113 | with distinct names, the insertion order is the table order |
| OsmoHealth.InitEntry | ui/osmo.py:114 | each expected name's first record holds its command, not found, expected, count 0 |
| OsmoHealth.Increment | ui/osmo.py:122-123 | a matching row sets the record's status to running and adds one to its count |
| OsmoHealth.Bump | ui/osmo.py:120-124 | matching one row changes no name and adds none |
| OsmoHealth.MatchRow | ui/osmo.py:119-124 | the inner loop increments every entry whose command equals the row's, with no `break`, and `found` tells whether any did |
| OsmoHealth.BumpUnexpected | ui/osmo.py:120-124 | a command nothing expects leaves the data unchanged |
| OsmoHealth.BumpOthers | ui/osmo.py:120-124 | matching never touches a name outside the table |
| OsmoHealth.BumpEntries | ui/osmo.py:120-124 | with distinct names, an entry is incremented exactly when its command is the row's |
| OsmoHealth.Unmatched | ui/osmo.py:126-127 | there are no more unmatched rows than rows |
| OsmoHealth.SyntheticName | ui/osmo.py:128 | the placeholder name of the k-th unmatched row is "???? (" then k in decimal then ")" |
| OsmoHealth.Classify | ui/osmo.py:113-133 | every expected name has a record after any rows |
| OsmoHealth.ClassifyValid | ui/osmo.py:113-133 | whatever the rows, every name is listed once and the listed names are exactly those with a record |
| OsmoHealth.CmdsShape | ui/osmo.py:118-121 | reading `row["CMD"]` fails exactly when some row has no CMD; otherwise it yields every row's CMD, in order |
| OsmoHealth.Cmds | ui/osmo.py:118-129 | the CMD value of every row in order, or none when some row has no CMD column, where `row["CMD"]` raises KeyError |
| OsmoHealth.Classified | ui/osmo.py:103-135 | the loops of `getStatus` over the rows: KeyError on "CMD" when some row lacks it, otherwise the classification of the commands |
| OsmoHealth.MissingCmd | ui/osmo.py:121 | one row without CMD makes the classification fail with KeyError on "CMD", and so the whole of `getStatus` (see `GetStatus`) |
| OsmoHealth.CmdsStep | ui/osmo.py:118-133 | one more row bumps the matching entries, or adds the next placeholder when nothing matches |
| OsmoHealth.RowStep | ui/osmo.py:118-133 | one round of the row loop moves the data and the placeholder counter from the first i rows to the first i+1 |
| OsmoHealth.ClassifyRows | ui/osmo.py:103-135 | the loops of `getStatus` return the classification of the rows' commands, or the KeyError of the first row without CMD |
| OsmoHealth.HealthOf | ui/osmo.py:101-135 | `getStatus`: the error of `_read_status`, or the classification of its rows |
| OsmoHealth.GetStatus | ui/osmo.py:101-135 | `getStatus` propagates the error of `_read_status` and otherwise classifies its rows |
| OsmoHealth.Placeholders | ui/osmo.py:127-128 | the n placeholder names are "???? (1)" to "???? (n)", in order |
| OsmoHealth.SyntheticNameInjective | ui/osmo.py:127-128 | different counters give different placeholder names |
| OsmoHealth.ClassifyExpected | ui/osmo.py:113-124 | an expected entry keeps its command and stays expected; its count is the number of rows whose CMD equals its command exactly; it is running exactly when that count is at least 1 |
| OsmoHealth.ClassifyUnexpected | ui/osmo.py:126-133 | the k-th unmatched row, in row order, has the entry "???? (k)" holding its command, running, not expected, count 1 |
| OsmoHealth.UnexpectedStep | ui/osmo.py:126-133 | one more row keeps the earlier placeholders and, when nothing expects it, adds the next one |
| OsmoHealth.ClassifyOrder | ui/osmo.py:113-133 | the insertion order is the expected names in table order followed by one placeholder per unmatched row |
| OsmoHealth.FreshPlaceholder | ui/osmo.py:127-128 | the next placeholder name is neither an expected name nor an earlier placeholder |
| OsmoHealth.ClassifySize | ui/osmo.py:113-133 | the names are distinct, and there are as many entries as expected names plus unmatched rows |
| OsmoHealth.ExpectedNamesDistinct | ui/osmo.py:81-99 | the expected table names each process once |
| OsmoHealth.ExpectedNamesNotSynthetic | ui/osmo.py:81-99 | no expected name has the form of a placeholder |
| OsmoHealth.RejectsMissingCmdColumn | ui/osmo.py:118-121 | classifying the rows of a table with data lines fails exactly when no header column is named CMD |
| OsmoHealth.CmdInsideLongerName | ui/osmo.py:35-121 | the header test passes on "CMD" inside a longer name such as "XCMD", which is then the only column, and the output "\nXCMD\nx" makes `getStatus` fail with KeyError on "CMD" |
| Render.Red | ui/main.py:39 | the escape code that starts a red row |
| Render.Green | ui/main.py:41 | the escape code that starts a green row |
| Render.Reset | ui/main.py:47 | the escape code that ends every row block |
| Render.ShowRed | ui/main.py:33 | a row is red when its status is not running, or it is not expected, or its count is not 1 |
| Render.ExpectedText | ui/main.py:36 | "yes" for an expected process and "no" otherwise |
| Render.HeaderLine | ui/main.py:29 | the header: "Name", "Count", "Status" and "Expected" right-justified to the name width, 5, 10 and 10, separated by single spaces |
| Render.RowLine | ui/main.py:43 | one row: the name, the count, the status and the expected text right-justified to the name width, 5, 10 and 10, separated by single spaces |
| Render.RowBlock | ui/main.py:38-47 | what one entry prints: the red or green code, its row, the command line when red, then the reset code |
| Render.MaxLen | ui/main.py:26-27 | the name column is as wide as the longest name: no name is longer and one is that long |
| Render.MaxLenPermutation | ui/main.py:26-27 | the width does not depend on the order of the names, so sorting them first changes nothing |
| Render.RejectsEmpty | ui/main.py:26-27 | rendering fails (`max` of an empty list) exactly when there is no entry |
| Render.RowBlocks | ui/main.py:31-47 | one block per entry |
| Render.RowBlocksAt | ui/main.py:31-47 | the i-th block is the one printed for the i-th name in insertion order |
| Render.Rendered | ui/main.py:16-47 | `renderStatus`: the error of `max` on no entries, otherwise the header followed by every entry's block in insertion order |
| Render.PrintEntry | ui/main.py:32-47 | the prints of one loop round append that entry's block |
| Render.RenderStatus | ui/main.py:16-47 | `renderStatus` prints the header and then every entry's block in insertion order, or fails when there is no entry |
| Render.RowBlockShape | ui/main.py:32-47 | a block starts with red when the rule says red and green otherwise, and ends with the reset; the row comes second; the indented command line is printed, before the reset, exactly when the row is red |
| Render.RowsInInsertionOrder | ui/main.py:29-47 | the output starts with the uncoloured header, and each entry's block follows the blocks of the entries inserted before it |
| Render.Layout | ui/main.py:29-43 | a row is the name column's width plus 29 characters; the header is too when the column is at least as wide as "Name" |
| Render.RowFields | ui/main.py:43 | the name, count, status and expected fields sit at fixed offsets, single spaces between them and the newline last, each field right-justified |
| Render.HeaderFields | ui/main.py:29 | the header's fields sit where the rows' fields do |
| Render.ExpectedGreen | ui/main.py:33-34 | an expected process is shown green exactly when exactly one observed row has its command line |
| Render.UnexpectedRed | ui/main.py:33-34 | a row that matches no expected process is always shown red |
| Render.ClassifiedRenders | ui/main.py:26-27 | the health data of a non-empty table always renders |

## Left out

- Running `docker compose top osmo` in the compose directory (ui/osmo.py:21-28) is not modelled. Its outcome becomes two parameters: whether it exited with status 0, and its standard output. The constructor, which only stores that directory, is left out with it.
- Decoding the output to text (`text=True`) is left out. Strings are sequences of code points.
- Python's `re` engine is left out. The one pattern used, `(\S+)(\s*)` anchored at the start, is modelled directly by `MatchToken`.
- The two `assert` statements (ui/osmo.py:34-35) become the errors `OutputTooShort` and `NoCmdHeader`. Running Python with `-O`, which skips them, is not modelled.
- Raised exceptions are modelled as `Err` values. The model does not capture a traceback ending the program.
- The `__main__` blocks of both files are left out: the refresh loop, clearing the screen, sleeping and `pprint`.
- `sorted()` in `renderStatus` only feeds `max()`, so the sort itself is not modelled. `MaxLenPermutation` shows that the order does not matter.
- The terminal's handling of the ANSI colour codes is left out. They are modelled as the strings printed.
- `renderStatus` is modelled on the dictionaries `getStatus` builds: records with a command, a status, an expected flag and a non-negative count. Dictionaries of other shapes are not modelled.
- The second test of the red condition (ui/main.py:44) is modelled as written, as a repetition of the first.
- Render.HeaderFields: requires the name column to be at least 4 wide. When every name is shorter than "Name", the header line is wider than the rows; `Layout` gives both lengths.
- Render.Layout: requires counts below 100000. A larger count overflows its 5-character field and shifts the later fields.
- Render.RowFields: requires counts below 100000. A larger count overflows its 5-character field and shifts the later fields.
- OsmoHealth.GetStatus: takes the expected table as a parameter, and `getStatus` is the instance `ExpectedProcesses`.
