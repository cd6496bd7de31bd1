# spydurview in Dafny

spydurview is a terminal dashboard for a Slurm cluster. It reads the
`sinfo` listing, sends an `ssh` probe to every node it can reach for
load, memory and per-core statistics, gathers what the probes report in
a scratch file, and paints one row per node, coloured red, yellow or
green. A companion tool, `mapper`, prints two text gauges per node: one
for memory and one for cores.

This project models the logic of that program. Every command output
(`sinfo`, `ssh`, the probes) is a text parameter. The model covers:

- the gauge renderer `row` (`Scaling`);
- the probe-text parsers `parse_meminfo`, `parse_loadavg` and
  `parse_mpstat`, with `collectdata`, `extract_pickle` and the tree fold
  in `get_info` of wsview.py (`WsView`). The pickle file is a log class
  whose entries are `(host, kind, record)` triples;
- the dashboard of spydurview.py (`SpydurView`, `Dashboard`):
  - the status tables;
  - `get_list_of_nodes`;
  - the reachable/unreachable partition;
  - the probe post-processing;
  - the scratch file the children write and `get_info` reads back;
  - the rows `get_info` builds;
  - `how_busy`;
  - the colour rule;
  - the key loop of `map_cores`;
- `draw_map` and the sorted report of mapper.py (`Mapper`).

Three modules hold the Python builtins the code depends on:

- `PyText`: `str.split()`, `split(sep)`, `strip`, `lower`, `rjust`, `in`
  and `startswith`;
- `PyNum`: `int()`, `float()`, `math.ceil` of a quotient, and `round`;
- `PyCollections`: dict assignment, `dict(zip(...))`, loops that skip or
  stop at an exception, and `sorted` on strings.

A Python exception becomes an `Err` result that names it: `ValueError`,
`IndexError`, `KeyError` or `ZeroDivisionError`. A message raised by the
code itself becomes `Raised(message)`. The `@trap` decorator is not part
of this model. Every failure is therefore an explicit error result. Where
the code catches an exception, the model takes the branch the `except`
takes.

Each loop in the source is a method with a `while` or `for` loop:

- `parse_meminfo`, the float conversion in `parse_loadavg`, and
  `parse_mpstat`;
- `collectdata`, `extract_pickle` and the `get_info` fold;
- `get_list_of_nodes`, the scratch-file read, and the `get_info` row loop;
- `how_busy`, the paint loop, and the `while running` key loop;
- `draw_map`.

Each method is proved equal to a function, and the lemmas state what the
source promises about that function.

Several behaviours of the code differ from what its own comments,
docstrings or messages suggest. The model follows the code:

- **Parsers on empty input.** The docstrings at wsview.py:182, :199 and
  :213 promise "keys and values". On empty text every parser raises
  `ValueError` instead, because the unpacks at wsview.py:187, :203 and
  :217 find too few fields (`MeminfoEmptyLine`, `MpstatEmpty`,
  `LoadavgSteps`).
- **Mapper core gauge.** The example line in the comment at mapper.py:68
  is `spdr12 424105 768000 up 52 12/40/0/52`. mapper.py:76 draws
  `cores[1]`, the second slash field, so that line draws 40 of 52 core
  slots, not the 12 allocated cores that `how_busy` reads at
  spydurview.py:282 (`SampleLine`).
- **`down!`.** The suffix table at spydurview.py:63-67 maps `!` to
  "pending shutdown". spydurview.py:189 looks up the literal key
  `'suffix'`, which is never in the table, so the text is always
  "down and N/A" (`SuffixLookupMisses`, `StatusTextSpec`).
- **Colour rule.** The comment at spydurview.py:417 says red is for a
  node that is down or uses more than 52 cores. The code does three
  things:
  - it calls any row holding the substring "is" red, including a data
    row whose node name holds it;
  - it compares the row's third word, the used-cores figure, with the
    literal 52;
  - it takes the busy ratios from the node's `sinfo` line
    (`DataRowColour`, `BusyThreshold`).
- **Help screen.** The help window says "Press b to return to the main
  screen" (spydurview.py:390). Any other key it reads falls through to
  the main window's read at spydurview.py:433, where `q` still quits
  (`HelpFallThrough`).
- **Scratch-file fields.** The cores report is the first five characters
  of `/proc/loadavg` (spydurview.py:87), so a load below 10 is written as
  `0.52 ` with a trailing blank. `line.split()` at spydurview.py:161
  drops that blank, so the value read back is the stripped report
  (`ScratchRoundTrip`, `UsualCoresReport`).

## Model

| member | source | states |
|---|---|---|
| Scaling.Fill | scaling.py:81-86 | the fill count of a valid call lies between 0 and `min(scale, max_avail)` |
| Scaling.Row | scaling.py:59-91 | `row`, with its raises as error results; no contract of its own: `RowErrors` gives when it draws, `RowShape`, `FillCount` and `RowLength` what it draws |
| Scaling.Gauge | scaling.py:59 | `row` with the default scale 80, `X`, `_` and brackets; no contract of its own: `DefaultGlyphs` and `DefaultRowWord` state its shape |
| Scaling.ProductZero | scaling.py:75 | the product `len(x)*len(_)*scale*max_avail` is zero exactly when one factor is, which justifies the factor test in `Row` |
| Scaling.RowErrors | scaling.py:68-79 | a non-numeric quantity raises "numeric quantities are required"; then an empty glyph or a zero scale or capacity raises "Cannot use zero length delimiters"; then a negative quantity raises "quantities must be non-negative"; `row` draws exactly when the glyphs are non-empty, scale and capacity positive and used non-negative |
| Scaling.RowShape | scaling.py:81-91 | a drawn bar is `ends[0]`, then k fill glyphs, then `min(scale, max_avail) - k` blanks, then `ends[1]`, with 0 <= k <= width |
| Scaling.RowLength | scaling.py:83-91 | the bar's length follows from the glyph and bracket lengths; with one-character glyphs and `[`/`]` it is `min(scale, max_avail) + 2` |
| Scaling.FillCount | scaling.py:81-86 | without rescaling, k is `used` clamped to `max_avail`; with rescaling, k is the nearest integer to `min(used, max_avail) * scale / max_avail`, ties to even |
| Scaling.RowClamps | scaling.py:81 | any `used` above `max_avail` draws the same bar as `used == max_avail` and is never an error |
| Scaling.DefaultGlyphs | scaling.py:59-91 | a default-glyph bar is `[`, `Fill` X's, the remaining underscores, `]` |
| Scaling.DefaultRowWord | scaling.py:88-91 | a default-glyph bar is one non-empty word without whitespace |
| Scaling.DemoPairs | scaling.py:98-107 | `(0,40)`, `(0,200)` and `(250,200)` draw 0/40, 0/80 and 80/0 fill/blank slots |
| Scaling.DemoRescaled | scaling.py:98-107 | `(50,384)` and `(768,1500)` draw 10/70 and 41/39 |
| Scaling.HalvesToEven | scaling.py:84 | a rescaled count of exactly 0.5 draws 0 and one of 1.5 draws 2 |
| PyNum.RoundHalfEvenNearest | scaling.py:84 | the modelled `round(n/d)` is an integer nearest `n/d`, the even one on a tie |
| PyNum.CeilDiv | spydurview.py:173-181 | `math.ceil(a/b)` is the least integer r with `a <= r*b` |
| PyNum.IntToStrWord | spydurview.py:175-181 | `str(n)` is a non-empty word without whitespace |
| PyText.StripOneWord | spydurview.py:161 | a text that `split()` reads as one word splits into that text stripped |
| PyText.UniversalNewlines | spydurview.py:155 | the text `open()` in text mode yields, each `\r\n` and each lone `\r` made `\n`; no contract of its own: `UniversalNoReturn`, `UniversalPlain` and `UniversalReturn` state it |
| PyText.UniversalNoReturn | spydurview.py:155 | no `\r` is left after the translation |
| PyText.UniversalPlain | spydurview.py:155 | a text without `\r` is read unchanged |
| PyText.UniversalReturn | spydurview.py:155 | a `\r` not followed by `\n` becomes a newline, and the text on each side is translated on its own |
| PyText.SplitOnPieces | spydurview.py:158 | no piece of a text cut at a character holds that character, nor any character the text lacks |
| PyCollections.AssignSpec | wsview.py:185-191 | assigning keys in order gives exactly those keys; a key's value comes from its last assignment |
| PyCollections.ZipDictSpec | spydurview.py:63-79 | `dict(zip(ks, vs))` has the keys of the common prefix; a key's value is paired with its last position |
| PyCollections.TraverseSpec | mapper.py:70-77 | a loop with no `try` succeeds exactly when every element does, keeps the results in order, and otherwise fails with the error of a failing element |
| PyCollections.OksSpec | spydurview.py:158-165 | a loop whose `try` skips failing elements keeps as members exactly the accepted elements' results, and keeps all of them when none fails |
| PyCollections.OksConcat | spydurview.py:158-165 | the loop over `xs + ys` keeps the results of `xs`, then those of `ys`: results keep their elements' order and each accepted element gives exactly one |
| PyCollections.OksSingle | spydurview.py:160-165 | one element gives its result, or nothing when it raises |
| PyCollections.Sort | mapper.py:97 | `sorted` returns a sorted permutation of its input |
| PyCollections.SortedUnique | mapper.py:97 | two sorted permutations of the same strings are equal, so the sorted report is determined by its entries |
| WsView.ParseMeminfo | wsview.py:179-193 | the line loop returns `Meminfo(s)` |
| WsView.MeminfoOf | wsview.py:185-191 | the line loop of `parse_meminfo` on a list of lines; no contract of its own: `MeminfoOfOk`, `MeminfoOfAssign` and `MeminfoEntries` state it |
| WsView.Meminfo | wsview.py:179-193 | `parse_meminfo` on its text; no contract of its own: `MeminfoRejects` and `MeminfoEmptyLine` state it |
| WsView.MeminfoOfOk | wsview.py:187 | the record is built exactly when every line unpacks into three tokens; any failure is `ValueError` |
| WsView.MeminfoRejects | wsview.py:186-187 | `parse_meminfo` raises `ValueError` exactly when some `\n`-separated line does not have three tokens |
| WsView.MeminfoOfAssign | wsview.py:185-191 | a well-formed text gives the dict that assigns each line's key to its value, in line order |
| WsView.MeminfoEntries | wsview.py:185-191 | the keys are exactly the lines' keys, and a key takes the value of its last line |
| WsView.MemValueSentinel | wsview.py:188-191 | a value that does not parse is stored as -1729, and one that parses is stored as its integer |
| WsView.MemLineOf | wsview.py:187-189 | the key of `label value unit` is the label without its last character, lowercased |
| WsView.MeminfoEmptyLine | wsview.py:186-187 | empty text, and text ending in a newline, raise `ValueError` |
| WsView.ParseLoadavg | wsview.py:196-208 | the unpack-then-convert code returns `Loadavg(s)` |
| WsView.Loadavg | wsview.py:196-208 | `parse_loadavg` on its text; no contract of its own: `LoadavgShape` and `LoadavgSteps` state it |
| WsView.LoadRecordOf | wsview.py:203-206 | the record built from the five texts; no contract of its own: `LoadRecord` states it |
| WsView.LoadFieldsSpec | wsview.py:203-204 | the five texts exist exactly when there are five tokens and the fourth splits on `/` into two; they are the first three tokens and the two halves |
| WsView.LoadavgSteps | wsview.py:203-204 | a token count other than five, or a fourth token without exactly one `/`, raises `ValueError` |
| WsView.FloatFields | wsview.py:205-206 | the in-place `d[k] = float(v)` loop over the five keys returns the converted record |
| WsView.FloatsSpec | wsview.py:205-206 | converting a list succeeds exactly when every text is a float, and then keeps each value in order |
| WsView.LoadRecord | wsview.py:203-206 | the record has exactly the five keys `minute_1` … `total_threads`, each mapped to its text's float; it is `ValueError` when a text is not a float |
| WsView.LoadavgShape | wsview.py:196-208 | `parse_loadavg` succeeds exactly when the fields exist and all five are floats, giving those five keys and values |
| WsView.ParseMpstat | wsview.py:210-224 | the zip loop returns `Mpstat(s)` |
| WsView.Mpstat | wsview.py:210-224 | `parse_mpstat` on its text; no contract of its own: `MpstatSpec`, `MpstatEmpty` and `MpstatFields` state it |
| WsView.PctFields | wsview.py:220-222 | the `%`-headed keys without their `%`; no contract of its own: `PctFieldsSpec` states it |
| WsView.MpstatSpec | wsview.py:217 | `parse_mpstat` raises `ValueError` exactly when the text is not two lines |
| WsView.MpstatEmpty | wsview.py:217 | empty text raises `ValueError` |
| WsView.MpstatFields | wsview.py:217-222 | for two lines, the keys are the `%`-headed header tokens within the shorter row, without the `%`; each is paired with the value at the same position, the last duplicate winning |
| WsView.PctZip | wsview.py:220-222 | the same statement for any header and value lists |
| WsView.PctFieldsSpec | wsview.py:220-222 | `k` is a key of the result exactly when `%k` was a key of the zipped dict, with its value |
| WsView.ScratchLog.constructor | wsview.py:236 | after `os.unlink(DAT_FILE)` the log is empty |
| WsView.ScratchLog.Append | wsview.py:65-82 | `append_pickle` adds one triple at the end and changes nothing else |
| WsView.CollectData | wsview.py:85-101 | `collectdata` appends `Collected(...)` to the log and returns `CollectStatus(...)` |
| WsView.Collected | wsview.py:92-99 | the triples `collectdata` appends; no contract of its own: `CollectedSteps` and `CollectedShape` state it |
| WsView.CollectStatus | wsview.py:97-101 | `EX_OK` when every probe parsed, else `EX_SOFTWARE`; no contract of its own: `CollectedShape` states it |
| WsView.CollectedSteps | wsview.py:92-99 | the triples appended up to the first failing probe, in the order stats, mem, cores |
| WsView.CollectedShape | wsview.py:92-101 | at most three triples, all for the host, with kinds in order; exactly three with `EX_OK`, fewer with `EX_SOFTWARE` |
| WsView.ExtractPickle | wsview.py:103-110 | reading back yields the triples in append order; an empty log is a file nobody wrote and raises `FileNotFoundError` |
| WsView.GetInfo | wsview.py:162-177 | `get_info` returns the fold of the log's triples |
| WsView.Put | wsview.py:175 | `t[host][kind] = rec`; no contract of its own: `PutSpec` and `PutCommutes` state it |
| WsView.Fold | wsview.py:173-175 | the tree built from the log; no contract of its own: `FoldHosts`, `FoldKinds`, `FoldLast` and `FoldSwap` state it |
| WsView.PutSpec | wsview.py:175 | `t[host][kind] = rec` adds the host, sets that one entry and leaves other hosts alone |
| WsView.FoldHosts | wsview.py:173-175 | the tree's hosts are exactly the hosts in the log |
| WsView.FoldKinds | wsview.py:173-175 | a host's kinds are exactly the kinds logged for it |
| WsView.FoldLast | wsview.py:173-175 | `t[h][c]` is the record of the last triple tagged `(h, c)` |
| WsView.PutCommutes | wsview.py:175 | two assignments to different `(host, kind)` slots commute |
| WsView.FoldSwap | wsview.py:173-175 | swapping two adjacent triples for different slots leaves the tree unchanged, so the order in which children append does not matter |
| WsView.CollectThenFold | wsview.py:173-175 | a successful `collectdata` folds to a tree with that one host and its three records |
| Mapper.NonEmptySpec | mapper.py:70 | the kept lines are, as members, exactly the non-empty lines; there are no more of them than lines, and all lines are kept when none is empty |
| Mapper.NonEmptyConcat | mapper.py:70 | the filter of `a + b` is the filter of `a` followed by that of `b`, so kept lines keep their order and their repetitions |
| Mapper.NonEmptySingle | mapper.py:70 | one line is kept exactly when it is not empty |
| Mapper.MapsOf | mapper.py:70-78 | the two map lists of the listing's lines; no contract of its own: `MapsSpec` states it |
| Mapper.MapLine | mapper.py:71-76 | the two entries of one line; no contract of its own: `LineFields` and `MapFieldsSpec` state it |
| Mapper.MemoryEntry | mapper.py:73-75 | the memory entry of a line; no contract of its own: `MemorySteps`, `MemoryShape`, `MemoryDraws` and `MemoryWidth` state it |
| Mapper.CoreEntry | mapper.py:72-76 | the core entry of a line; no contract of its own: `CoreSteps`, `CoreShape` and `CoreDraws` state it |
| Mapper.MapReport | mapper.py:97 | the printed report of one map; no contract of its own: `ReportLines` and `MainReport` state it |
| Mapper.DrawMap | mapper.py:53-78 | `draw_map` returns the maps of the listing's lines after the header, empty ones skipped |
| Mapper.DrawLines | mapper.py:70-77 | the append loop returns `MapsOf(lines)` |
| Mapper.MapsSpec | mapper.py:70-78 | the maps exist exactly when every line draws; then one memory entry and one core entry per line, in order; otherwise the error of the first failing line |
| Mapper.LineFields | mapper.py:71 | a line without six tokens raises `ValueError`; otherwise the mapper uses node, free, total, true_cores and cores |
| Mapper.ScaleTable | mapper.py:56-74 | a non-integer field raises `ValueError`; a total other than 384000, 768000 or 1536000 raises `KeyError` |
| Mapper.ScaleBelowSize | mapper.py:56-60 | each tabled scale is positive and below its total, so the memory gauge is always rescaled |
| Mapper.MapFieldsSpec | mapper.py:73-76 | a line draws exactly when both entries do, and the memory error comes first |
| Mapper.MemorySteps | mapper.py:73-75 | the memory entry is the node, a space and `row(total - free, total, scale)` |
| Mapper.MemoryShape | mapper.py:73-75 | the memory bar has `scale` slots, and its fill is the clamped, rescaled used memory |
| Mapper.MemoryDraws | mapper.py:73-75 | integer fields, a tabled total and free not above total always draw |
| Mapper.MemoryWidth | mapper.py:74-75 | the memory entry's length is the node, one space and `scale + 2` |
| Mapper.CoreSteps | mapper.py:72-76 | the core entry is the node, a space and `row(cores.split('/')[1], true_cores)` |
| Mapper.CoreShape | mapper.py:72-76 | the core bar has `min(80, true_cores)` slots, filled by the second slash field |
| Mapper.CoreDraws | mapper.py:72-76 | a non-negative second field and a positive core count always draw |
| Mapper.SampleLine | mapper.py:68-76 | `spdr12 424105 768000 up 52 12/40/0/52` draws a 50-slot memory bar with 22 fill and a 52-slot core bar with 40 fill |
| Mapper.MemoryWords | mapper.py:75 | a memory entry is two words, the first being the node |
| Mapper.CoreWords | mapper.py:76 | a core entry is two words, the first being the node |
| Mapper.LineOneLine | mapper.py:70-76 | both entries of a line are single lines that start with the line's node |
| Mapper.ReportLines | mapper.py:97 | `"\n".join(sorted(v))` splits back into the sorted entries, a sorted permutation of them |
| Mapper.MainReport | mapper.py:94-99 | each printed map reads back as its entries in sorted order |
| SpydurView.SuffixKeysDistinct | spydurview.py:63-67 | nine distinct one-character suffixes and nine descriptions |
| SpydurView.SuffixTable | spydurview.py:63-68 | `suffixes` has nine keys, each mapped to the description at its position |
| SpydurView.StateKeysDistinct | spydurview.py:70-78 | fifteen distinct state keys and fifteen descriptions |
| SpydurView.StateTable | spydurview.py:70-79 | `states` has fifteen keys, each mapped to the description at its position |
| SpydurView.GetListOfNodes | spydurview.py:116-132 | the loop returns `NodesOf` of the listing without its header |
| SpydurView.NodesOf | spydurview.py:126-130 | the node dict of the listing's lines; no contract of its own: `NodesSpec`, `NodesAssign`, `NodesKeys` and `NodesLast` state it |
| SpydurView.NodesSpec | spydurview.py:128-129 | the dict is built exactly when every line has two tokens; otherwise `ValueError` |
| SpydurView.NodesAssign | spydurview.py:126-130 | a well-formed listing gives `node_dict[node] = state` line by line |
| SpydurView.NodesKeys | spydurview.py:126-130 | the keys are exactly the first tokens of the lines |
| SpydurView.NodesLast | spydurview.py:128-130 | a node maps to the state on its last line |
| SpydurView.TrailingNewline | spydurview.py:126-129 | a listing that ends in a newline has an empty last line, so `get_list_of_nodes` raises `ValueError` |
| SpydurView.ReachableIff | spydurview.py:220-222 | a node is reachable exactly when the last character of its state is not a suffix and `state[1:]` is neither `""` nor `"d"`, a substring test |
| SpydurView.Reachable | spydurview.py:220-222 | the reachability test on a state; no contract of its own: `ReachableIff` states it |
| SpydurView.Partition | spydurview.py:220-226 | the two dict comprehensions; no contract of its own: `PartitionSpec` states it |
| SpydurView.PartitionSpec | spydurview.py:220-226 | an empty state raises `IndexError`; otherwise the two dicts are disjoint, cover all nodes with their states, and the reachable one holds exactly the reachable nodes |
| SpydurView.HostFileRaises | spydurview.py:221-222 | a host list handed over with empty states makes the partition raise `IndexError` |
| SpydurView.CoresUsage | spydurview.py:87-89 | the cores result is `'None'` for empty output, otherwise the first five characters |
| SpydurView.MemUsageSpec | spydurview.py:102-111 | `'None'` for empty output; fewer than two digit runs raise `IndexError`; otherwise `ceil((first - second) / 1000000)` |
| SpydurView.MemUsage | spydurview.py:91-114 | `get_actual_mem_usage` on the probe's output; no contract of its own: `MemUsageSpec` states it |
| SpydurView.Probed | spydurview.py:240-246 | what a child writes for its node, or the memory probe's error; no contract of its own: `ProbedReadBack` states it |
| SpydurView.CoresReport | spydurview.py:87-89 | for empty output or a loadavg text, the cores report is one word on one line, and strips to `None`, the load's first four characters, or its first five |
| SpydurView.MemReport | spydurview.py:102-114 | the memory report, `None` or `str(n)`, is one word on one line and its own stripped text |
| SpydurView.ProbedReadBack | spydurview.py:240-246 | a child's report for a one-word node and a loadavg text is one line of one-word fields and reads back with only the cores field stripped |
| SpydurView.UsualCoresReport | spydurview.py:87-89 | a load below 10 gives the report `0.52 `, which meets the round trip's requirement and reads back as `0.52` |
| SpydurView.StrippedPlain | spydurview.py:161 | a report whose fields are plain words reads back unchanged |
| SpydurView.DatLineNewline | spydurview.py:158-161 | the newline `readlines` keeps does not change the fields of a line |
| SpydurView.MemUsageWholeText | spydurview.py:105-106 | text without the two characters `/n` is read whole by the literal split |
| SpydurView.ProbeTextColumns | spydurview.py:246 | when each field is one word, perhaps with blanks around it, the line a child writes splits into the three fields stripped |
| SpydurView.DatLineOfProbe | spydurview.py:158-163 | reading a written line gives back the report with each field stripped |
| SpydurView.DatLineEmpty | spydurview.py:161 | the empty line after the last newline is skipped as a `ValueError` |
| SpydurView.WrittenLines | spydurview.py:246 | one written line per report, in order |
| SpydurView.ScratchLines | spydurview.py:158 | when no field holds a line end, splitting the written file at each `\n` gives the written lines plus one empty last piece; `readlines` gives the same lines with their newlines kept, which `split()` ignores (`DatLineNewline`), and no empty last piece, which `get_info` would skip anyway (`DatLineEmpty`) |
| SpydurView.ScratchNoReturn | spydurview.py:246 | when no field holds a line end, the written file holds no `\r`, so reading it in text mode changes nothing |
| SpydurView.WrittenLinesRead | spydurview.py:158-165 | reading the written lines gives back every report in order, each field stripped |
| SpydurView.ScratchRoundTrip | spydurview.py:155-165 | when each field is one word holding neither `\n` nor `\r`, the reports read from the scratch file are those the children wrote, in order, each field stripped |
| SpydurView.ReadScratch | spydurview.py:155-165 | the read loop over the file's lines, read in text mode, fills the two dicts with `UsedCores` and `UsedMem` |
| SpydurView.FileLines | spydurview.py:155-158 | the lines `readlines` gives for the file opened in text mode, without their newlines: no line holds `\n` or `\r` |
| SpydurView.ReturnEndsLine | spydurview.py:155-158 | a `\r` on its own ends a line: text `a` then `\r` then `b`, with `a` free of line ends and `b` not starting with `\n`, is read as the line `a` followed by the lines of `b`; so a report such as `n1 0.52\r 3` is two malformed lines |
| SpydurView.UsedKeys | spydurview.py:158-163 | both dicts have the same keys: the nodes of the well-formed lines |
| SpydurView.UsedLast | spydurview.py:158-163 | a node's entries come from its last report |
| SpydurView.ProbesOf | spydurview.py:158-165 | the reports read from the scratch file; no contract of its own: `ScratchRoundTrip`, `UsedKeys` and `UsedLast` state it |
| SpydurView.SuffixLookupMisses | spydurview.py:189 | `'suffix'` is not a key, so the looked-up text is always "N/A" |
| SpydurView.StateLookup | spydurview.py:188 | a state is a key exactly when it is a state abbreviation, with the description at its position |
| SpydurView.StatusTextSpec | spydurview.py:183-189 | with a trailing suffix the text is the base state's description, or "status unknown", then " and N/A"; without one the text is empty |
| SpydurView.StatusText | spydurview.py:183-189 | the status text of a node without a cores report; no contract of its own: `StatusTextSpec` and `SuffixIgnored` state it |
| SpydurView.StatusRow | spydurview.py:190 | `f"{node} is {text}."`; no contract of its own: `StatusRowHasIs` states it |
| SpydurView.DataRow | spydurview.py:192 | the row of a node that answered; no contract of its own: `DataRowWords` and `DataRowColumns` state it |
| SpydurView.SuffixIgnored | spydurview.py:186-189 | states that differ only in their suffix read the same |
| SpydurView.StatusRowHasIs | spydurview.py:190 | a status row contains the substring "is" |
| SpydurView.DataRowWords | spydurview.py:192 | a data row's words are node, core gauge, used cores, the bar sign, allocated, used and total memory |
| SpydurView.DataRowColumns | spydurview.py:192 | the columns the colour rule reads: the node first and the used cores third |
| SpydurView.InfoRowSpec | spydurview.py:169-181 | a line without six tokens, non-integer memory fields or a failing gauge raise first; then a node absent from the scratch dicts raises `KeyError`; otherwise a row is built |
| SpydurView.InfoRowKind | spydurview.py:170 | a line that gives a row has six tokens, and its node and status are words |
| SpydurView.InfoFieldsSteps | spydurview.py:172-181 | a row comes from integer memory fields, a drawn core gauge `row(cores[0], true_cores)`, and `NodeRow` |
| SpydurView.InfoFieldsKind | spydurview.py:173-192 | a `'None'` cores report gives the status row, which holds "is"; any other gives a seven-column data row with the node, used cores and used memory in place |
| SpydurView.InfoFields | spydurview.py:172-192 | the row of one unpacked line; no contract of its own: `InfoFieldsSteps` and `InfoFieldsKind` state it |
| SpydurView.NodeRow | spydurview.py:178-192 | the row once the numbers and the gauge are known; no contract of its own: `NodeRowKind` states it |
| SpydurView.NodeRowKind | spydurview.py:178-192 | the same once the numbers and the gauge are known |
| SpydurView.InfoRowsSpec | spydurview.py:167-195 | as members, the rows are exactly those of the lines that did not raise |
| SpydurView.InfoRowsConcat | spydurview.py:167-195 | the rows of `a + b` are the rows of `a` followed by those of `b`, so rows keep the order and repetitions of their lines even when some lines raise |
| SpydurView.InfoRowsSingle | spydurview.py:169-195 | one line gives its row, or no row when it raises |
| SpydurView.InfoRowsAll | spydurview.py:167-195 | when no line raises, there is one row per line, in listing order |
| SpydurView.InfoRows | spydurview.py:167-195 | the rows of the listing's lines; no contract of its own: `InfoRowsConcat`, `InfoRowsSingle`, `InfoRowsSpec` and `InfoRowsAll` state it |
| SpydurView.GetInfo | spydurview.py:135-197 | `get_info` returns the rows of the listing's lines, read against the scratch file as text mode reads it |
| Dashboard.Max | spydurview.py:291 | `max(a, b)` is one of its arguments and at least both |
| Dashboard.HowBusyLoop | spydurview.py:266-291 | the loop with `break` returns `HowBusy`, the node being the row's first word |
| Dashboard.HowBusy | spydurview.py:266-291 | `how_busy` of a row; no contract of its own: `HowBusyLoop` computes it and the `Busy…` lemmas state it |
| Dashboard.BusyOf | spydurview.py:277-291 | the search for the node's line; no contract of its own: `BusyFirstMatch`, `BusyMalformed` and `BusyNoMatch` state it |
| Dashboard.MatchBusy | spydurview.py:280-291 | the value for the matching line; no contract of its own: `BothBusy`, `BusyThreshold`, `BusyCoresOnly` and `BusyCoresRaise` state it |
| Dashboard.BusyPass | spydurview.py:277-279 | a six-field line for another node hands the search to the next line |
| Dashboard.BusyFirstMatch | spydurview.py:277-286 | the first line naming the node decides, whatever follows it |
| Dashboard.BusyMalformed | spydurview.py:277-291 | a line without six fields before any match ends the search with 0 |
| Dashboard.BusyNoMatch | spydurview.py:277-291 | a node that no line names gets 0 |
| Dashboard.CoresBusyOf | spydurview.py:282 | with integer fields and a non-zero core count, the core ratio is allocated over true cores |
| Dashboard.MemBusyOf | spydurview.py:284-285 | with integer fields and a non-zero total, the memory ratio is (total - free) / total |
| Dashboard.BothBusy | spydurview.py:280-291 | when both ratios exist, the result is their maximum |
| Dashboard.BusyThreshold | spydurview.py:280-291 | reaching 0.75, inclusive, happens exactly when `4*alloc >= 3*true_cores` or `4*(total - free) >= 3*total` |
| Dashboard.BusyCoresOnly | spydurview.py:280-291 | when the memory part raises, only the core ratio counts |
| Dashboard.BusyCoresRaise | spydurview.py:280-291 | when the core part raises, the memory part never runs and the result is 0 |
| Dashboard.Paint | spydurview.py:414-429 | the loop over `sorted(info)` paints `Painted` of the sorted rows |
| Dashboard.Painted | spydurview.py:414-429 | the rows one pass paints; no contract of its own: `PaintedSpec` states it |
| Dashboard.ColourOf | spydurview.py:416-424 | the colour rule for one row; no contract of its own: `StatusRowRed`, `ShortRowRaises`, `DataRowColour` and `InfoRowColour` state it |
| Dashboard.PaintedSpec | spydurview.py:414-429 | a pass paints a leading run of the rows, each with its rule colour, and stops only at a row whose colour raises |
| Dashboard.StatusRowRed | spydurview.py:417 | every status row is red |
| Dashboard.ShortRowRaises | spydurview.py:419 | a non-status row under three words raises `IndexError` |
| Dashboard.DataRowColour | spydurview.py:417-424 | a row without "is" is red above 52 used cores; otherwise it is yellow when its node is at least 0.75 busy and green when not; it raises `ValueError` when the third word is not a float |
| Dashboard.InfoRowColour | spydurview.py:416-424 | a `get_info` row for a `'None'` report is red; any other follows the rule on its used cores and its own listing line |
| Dashboard.MapCores | spydurview.py:366-448 | the `while running` loop ends in `Run(Start, keys)` |
| Dashboard.Run | spydurview.py:366-448 | the key loop's modes; no contract of its own: `QuitAtMain`, `HelpAndBack`, `HelpFallThrough`, `NeutralKeys` and `StopsOnlyOnQ` state it |
| Dashboard.MainRead | spydurview.py:433-442 | one main-window key; no contract of its own: `QuitAtMain` and `NeutralKeys` state it |
| Dashboard.QuitAtMain | spydurview.py:441-442 | `q` on the main screen stops the loop at once |
| Dashboard.HelpAndBack | spydurview.py:399-403 | `h` then `b` returns to the main screen as if neither was pressed |
| Dashboard.HelpFallThrough | spydurview.py:392-442 | in help, a key other than `b` falls through to the main read, where `q` quits; a `q` read by the help window does not quit |
| Dashboard.NeutralKeys | spydurview.py:433-440 | timeouts, resizes and keys other than `q` and `h` keep the main screen running |
| Dashboard.StopsOnlyOnQ | spydurview.py:441-442 | a loop that stops has read a `q` |

## Left out

- Process fan-out is not modelled: `os.fork`, `os.wait3`, `fcntl.lockf`,
  `os.unlink` and `os._exit`. The scratch file and the pickle log are
  the sequence of what the children wrote, in some order.
  `WsView.FoldSwap` shows that the tree does not depend on that order.
- Command output is a parameter, not a command run. This covers
  `dorunrun`, `ssh`, `sinfo` and `SeekINFO`, and the parameter is the
  text the command printed. `how_busy` calls `SeekINFO` once per row, so
  it could see a different listing for each row. The model hands every
  call the same listing.
- `pickle` is not modelled. A record is a Dafny value in the log.
- A missing scratch file is not modelled. The model reads the scratch
  file as its text, with line ends translated as text mode does, split
  at each newline. Each child opens it with `'a+'`
  (spydurview.py:237) before it probes, so the open at spydurview.py:155
  raises only when no child was forked, for example when no node is
  reachable. The model does not capture that raise.
- Curses is not modelled: drawing, colour pairs, panels, resizing and
  the timestamp footer. A resize key is a key that changes no mode.
- The model does not capture an exception that curses raises while the
  help screen is drawn, which would skip the help-window read.
- `Dashboard.Painted`: a pass also ends early when `window2.addstr`
  raises for a row below the window's last line (spydurview.py:418-424).
  The bare `except` at spydurview.py:428 then abandons the rest of the
  pass. The model stops a pass only at a row whose colour raises.
- `Dashboard.Run`: the loop in the source runs until `q`. The model stops
  when the key sequence runs out.
- `Dashboard.Run` does not model what each pass paints. A pass's frame
  is `Dashboard.Painted` of the rows `get_info` returns for that pass.
- Floating point is not modelled. `float()` yields exact rationals or
  infinities or NaN (`PyNum.PyFloat`). The ratios in `how_busy` and the
  `round` in `row` are exact. Results near a rounding boundary may
  therefore differ from IEEE doubles.
- `PyText.Lower`: lowers ASCII letters only. Python's `str.lower()`
  also lowers non-ASCII letters, which could change a meminfo key
  (wsview.py:188).
- `PyNum.ParseInt`: reads ASCII digits only. Python's `int()` also reads
  any other Unicode decimal digit.
- `PyText.DigitRuns`: `\d` matches ASCII digits only (`PyText.IsDigit`).
  Python's `re.findall(r'\d+')` on a `str` also matches other Unicode
  decimal digits (spydurview.py:106).
- `PyNum.ParseFloat` accepts ASCII decimal literals and the `inf`,
  `infinity` and `nan` spellings. It does not accept the non-ASCII digits
  that Python's `float()` also reads.
- A failed `sinfo` is not modelled. `SeekINFO` then returns a status code
  instead of the listing. The model always receives the listing text.
- The following are not modelled:
  - the argparse `__main__` blocks;
  - `get_host_names`/`get_hostnames` (file reading);
  - `help_msg` text;
  - `piddly`;
  - the unused `help_window`;
  - logging;
  - urlogger.py.

  These are I/O or text with no logic. `SloppyTree` is a plain map.
- `Mapper.SampleLine` takes the sample line's fields as their parsed
  values, not as literal digit strings, to keep the proof small.
