# Rain-gauge data treatment, modelled in Dafny

The `tratamentoDados` scripts prepare the readings of a roof-runoff
experiment. In the runoff tank, one ultrasonic distance reading gives the
firmware the water level, the volume and the flow, and each is published over
MQTT; the broker's messages are exported as JSON lines. The scripts then do
five things:

- split the export by topic and time window (`separajson.py`);
- convert each JSON array into a `data,body` CSV (`criacsv.py`);
- drop spurious dips from the level series (`corrigeNivel.py`) and from the
  volume series (`corrigeVolume.py`);
- derive the discharge of the tank from the corrected level
  (`calculaEscoamento.py`).

This project models each of these scripts as pure functions over immutable
sequences and proves what they compute.

| file | module | script |
|---|---|---|
| `series.dfy` | `Series` | shared records: `Sample(time, value)`, `Result`/`Option`, mask selection `Select`, `Reverse`, a time sort |
| `level.dfy` | `LevelCorrection` | `corrigeNivel.py` `process_csv` |
| `volume.dfy` | `VolumeCorrection` | `corrigeVolume.py` `process_csv` |
| `discharge.dfy` | `Discharge` | `calculaEscoamento.py` `process_csv` |
| `csv_conversion.dfy` | `CsvConversion` | `criacsv.py` `json_to_csv` and the output-name rule of `process_folder` |
| `topic_split.dfy` | `TopicSplit` | `separajson.py` `split_json_by_topic_and_time` |

A filter is specified against an independent reference. The reference is a
mask of the rows that should survive: running maxima for the level, suffix
maxima for the volume. The scan the script performs is then proved to select
exactly the masked rows. In the same way, the grouping loop of the split is
proved to build, for every topic, exactly the reference list `Members` of its
lines.

Instants are whole seconds (`int`). Values are `real`.

Facts about the code that the model keeps as they are:

- The discharge script raises no error for fewer than two rows; the result
  is empty.
- The discharge script has no guard against a zero time gap. numpy then
  yields +inf, -inf or NaN with only a warning, and the model writes those
  values (`Discharge.FlowValue`).
- The tank area is hard-coded as `3.14 * 30**2`.
- A one-row volume file comes out as two copies of that row.
- The level sort is pandas' default `sort_values`, which is not stable. The
  model uses a stable insertion sort. Rows that share an instant can come
  out of pandas in either order, and that order decides which of them the
  level filter keeps (`LevelCorrection.TiedInstantsDependOnSortOrder`). The
  filter results that do not depend on the tie order are stated for any
  time-sorted input, or for series whose instants are all distinct.

## Model

| member | source | states |
|---|---|---|
| Series.SortByTime | tratamentoDados/corrigeNivel.py:34 | the sorted series is ordered by instant and is a permutation of the input (same multiset, same length) |
| Series.SortSortedIsIdentity | tratamentoDados/corrigeNivel.py:34 | a series already in time order is left exactly as it is by the sort |
| Series.StrictOrderIsUnique | tratamentoDados/corrigeNivel.py:34 | a series whose instants strictly increase is the only time-sorted arrangement of its rows, so every sort, stable or not, returns it unchanged |
| Series.SelectKeepsStrictTimeOrder | tratamentoDados/corrigeNivel.py:44-46 | keeping some rows of a series with strictly increasing instants keeps the instants strictly increasing |
| Series.SelectKeepsTimeOrder | tratamentoDados/corrigeNivel.py:44-46 | keeping some rows of a time-sorted series, in their order, gives a time-sorted series |
| Series.SelectIsSubMultiset | tratamentoDados/corrigeNivel.py:44-46 | a filter output invents nothing: every kept row comes from the input, at most as often as it occurs there |
| LevelCorrection.CorrectLevels | tratamentoDados/corrigeNivel.py:31-47 | an empty file is an error (the first-row read fails); otherwise the output has at least one row, is time-sorted, never decreases in value, draws only on the input rows, and is exactly the running maxima of the sorted series |
| LevelCorrection.Scan | tratamentoDados/corrigeNivel.py:44-47 | the loop keeps at most the rows it visits, and the first row it keeps reaches the threshold |
| LevelCorrection.RunningMaxFilter | tratamentoDados/corrigeNivel.py:41-47 | the forward scan keeps exactly the rows that are at least every earlier row (ties kept); its first row is the first input row; its values never decrease |
| LevelCorrection.ScanSelectsRecords | tratamentoDados/corrigeNivel.py:41-47 | starting the threshold at the first row's value, the scan output equals the selection of running-maximum rows |
| LevelCorrection.ScanFromMaximum | tratamentoDados/corrigeNivel.py:44-47 | loop invariant of the scan: while the threshold is the maximum of the rows already seen, the rest of the scan keeps exactly the remaining running maxima |
| LevelCorrection.RecordIffAboveMaximum | tratamentoDados/corrigeNivel.py:45 | with the threshold equal to the maximum so far, the `>=` test holds iff the row is a running maximum |
| LevelCorrection.ScanRises | tratamentoDados/corrigeNivel.py:45-47 | every row the scan keeps is at least the threshold, and the kept values never decrease |
| LevelCorrection.ScanKeepsRisingSeries | tratamentoDados/corrigeNivel.py:44-47 | a non-decreasing series passes through the scan unchanged |
| LevelCorrection.FilterOfRisingSeries | tratamentoDados/corrigeNivel.py:41-47 | the filter leaves a non-decreasing series unchanged |
| LevelCorrection.RunningMaxFilterIdempotent | tratamentoDados/corrigeNivel.py:41-47 | filtering the filtered series again changes nothing, for a series in any order |
| LevelCorrection.CorrectLevelsIdempotent | tratamentoDados/corrigeNivel.py:31-47 | sorting and filtering the corrected series again gives the same series back, with the stable sort of this model |
| LevelCorrection.SecondPassUnderAnySort | tratamentoDados/corrigeNivel.py:34-47 | when the sorted series has no two readings at one instant, every time-sorted arrangement of the corrected series is that series itself and the filter keeps it whole, so the second pass is the identity under any sort |
| LevelCorrection.TiedInstantsDependOnSortOrder | tratamentoDados/corrigeNivel.py:34-47 | two readings at the same instant, 3.0 then 5.0, are both kept; in the other time-sorted order only 5.0 is kept |
| VolumeCorrection.CorrectVolumes | tratamentoDados/corrigeVolume.py:26-38 | an empty file is an error; otherwise the output is the suffix-maximum rows in file order followed by the forced first row, so it has one row more than there are suffix maxima and at least two rows; its last row is the file's first row, the one before is the file's last row, and all rows but the last never increase |
| VolumeCorrection.BackScan | tratamentoDados/corrigeVolume.py:32-35 | the backward loop keeps at most the rows it visits, and the first row it keeps reaches the threshold |
| VolumeCorrection.BackwardKept | tratamentoDados/corrigeVolume.py:29-38 | the rows the backward scan keeps, reversed, are exactly the suffix maxima in file order; the last file row is among them; their values never increase |
| VolumeCorrection.BackScanSelectsSuffixMaxima | tratamentoDados/corrigeVolume.py:29-35 | with the threshold starting at the last row, a row is kept iff it is at least every later row |
| VolumeCorrection.BackScanFromMaximum | tratamentoDados/corrigeVolume.py:32-35 | loop invariant of the backward scan: while the threshold is the maximum of the later rows, the rest of the scan keeps exactly the suffix maxima of the earlier rows |
| VolumeCorrection.SuffixMaxIffAboveMaximum | tratamentoDados/corrigeVolume.py:33 | with the threshold equal to the maximum of the later rows, the `>=` test holds iff the row is a suffix maximum |
| VolumeCorrection.BackScanRises | tratamentoDados/corrigeVolume.py:32-35 | every row the backward scan keeps is at least the threshold, and the kept values never decrease in scan order |
| VolumeCorrection.BackScanIsReversedScan | tratamentoDados/corrigeVolume.py:32-35 | the backward scan is the level correction's forward scan run on the reversed file |
| VolumeCorrection.BackwardIsMirroredForward | tratamentoDados/corrigeVolume.py:29-38 | the backward-kept rows are the reverse of the forward running-maximum filter applied to the reversed file |
| VolumeCorrection.FirstRowTwiceWhenSuffixMaximum | tratamentoDados/corrigeVolume.py:26-38 | when the first row is at least every later row, it is both the first and the last output row |
| VolumeCorrection.SingleRowDoubled | tratamentoDados/corrigeVolume.py:26-38 | a one-row file comes out as two copies of that row |
| VolumeCorrection.NoSortBeforeScan | tratamentoDados/corrigeVolume.py:23-38 | rows out of time order are not sorted: `[(120s,5),(60s,3)]` gives `[(120s,5),(60s,3),(120s,5)]` |
| Discharge.ComputeDischarge | tratamentoDados/calculaEscoamento.py:32-44 | one output row per consecutive pair (no rows for fewer than two input rows), for any input including repeated instants; row k carries the instant of input row k+1 and the flow of rows k and k+1 |
| Discharge.PairFlow | tratamentoDados/calculaEscoamento.py:33-42 | the flow is finite iff the two instants differ, and then times the elapsed minutes it is the level change times the area; at a zero gap it is +inf for a falling level, -inf for a rising one and NaN for an unchanged one |
| Discharge.RepeatedMinute | tratamentoDados/calculaEscoamento.py:33-42 | two readings stamped with the same minute give +inf, -inf or NaN as the level falls, rises or stays |
| Discharge.AllFiniteWhenInstantsDistinct | tratamentoDados/calculaEscoamento.py:32-44 | when no two consecutive rows share an instant, every written flow is the finite difference quotient |
| Discharge.Flow | tratamentoDados/calculaEscoamento.py:33-42 | flow times the elapsed minutes from the earlier row to the later one is the level change times the area |
| Discharge.AreaIs2826 | tratamentoDados/calculaEscoamento.py:28-29 | the cross-section `3.14 * 30**2` is 2826 cm² |
| Discharge.FlowIsForwardDifference | tratamentoDados/calculaEscoamento.py:33-42 | the script's earlier-minus-later quotient equals the usual later-minus-earlier difference quotient |
| Discharge.FlowTimesGap | tratamentoDados/calculaEscoamento.py:35-42 | flow times the elapsed minutes, divided by the area, is the level change of the pair |
| Discharge.EqualLevelsNoFlow | tratamentoDados/calculaEscoamento.py:35-42 | equal consecutive levels give zero flow |
| Discharge.FlowSignFollowsLevel | tratamentoDados/calculaEscoamento.py:35-42 | with time moving forward, the flow is positive iff the level rises and negative iff it falls |
| Discharge.OneMinuteDrop | tratamentoDados/calculaEscoamento.py:28-42 | a 3 cm drop over one minute gives -8478 cm³/min |
| Discharge.DischargeIntegratesToLevelChange | tratamentoDados/calculaEscoamento.py:32-44 | when no two consecutive rows share an instant, every flow is finite, and summing flow times elapsed minutes over the discharge rows, divided by the area, recovers the level change from the first row to the last |
| CsvConversion.ParseIsoStamp | tratamentoDados/criacsv.py:42-44 | an accepted date is a valid calendar date and time: year 1..9999, month 1..12, a day within that month, hour, minute and second in range |
| CsvConversion.FourDigits | tratamentoDados/criacsv.py:42-44 | the zero-padded four-digit text of a year reads back as that year |
| CsvConversion.IsoText | tratamentoDados/criacsv.py:42-44 | the `YYYY-MM-DDTHH:MM:SS` text of a valid stamp is 19 characters long |
| CsvConversion.SecondsRoundTrip | tratamentoDados/criacsv.py:42-44 | the seconds part `:SS` reads back as its seconds |
| CsvConversion.FractionIgnored | tratamentoDados/criacsv.py:42-44 | a 3- or 6-digit fraction after the seconds is accepted and does not change them |
| CsvConversion.IsoTextRoundTrip | tratamentoDados/criacsv.py:42-44 | the date parser reads the `YYYY-MM-DDTHH:MM:SS` text of any valid stamp back as that stamp |
| CsvConversion.ParseDependsOnFields | tratamentoDados/criacsv.py:42-44 | two texts that agree up to the minute and whose seconds parts read alike parse alike |
| CsvConversion.IsoTextWithFractionParses | tratamentoDados/criacsv.py:42-44 | with a millisecond or microsecond fraction appended the text still parses as the same stamp |
| CsvConversion.ReadingClockOfIsoDate | tratamentoDados/criacsv.py:42-44 | a reading dated with a stamp's text and a `Z` yields that stamp's hour and minute |
| CsvConversion.RowOfIsoReading | tratamentoDados/criacsv.py:37-49 | such a reading becomes the row of that hour and minute's `H:MM` text and its body |
| CsvConversion.DropLastChar | tratamentoDados/criacsv.py:43 | the result is one character shorter (empty stays empty), and putting the removed character back gives the date string |
| CsvConversion.DropLastCharUndoesAppend | tratamentoDados/criacsv.py:43 | a date string with a zone marker appended comes back exactly without it |
| CsvConversion.NatText | tratamentoDados/criacsv.py:46 | the unpadded decimal text of a number reads back as that number, with one digit below 10 and two digits from 10 to 99 with no leading zero |
| CsvConversion.TwoDigits | tratamentoDados/criacsv.py:46 | the zero-padded two-digit text of a minute reads back as that minute |
| CsvConversion.ClockText | tratamentoDados/criacsv.py:46 | the time text is the unpadded hour, a colon, then two minute digits, four or five characters long |
| CsvConversion.ParseClockText | tratamentoDados/corrigeNivel.py:31 | the `%H:%M` parse accepts only an hour below 24 and a minute below 60 |
| CsvConversion.ClockTextRoundTrip | tratamentoDados/criacsv.py:46 | the level correction's `%H:%M` parser reads the written time text back as the same hour and minute |
| CsvConversion.ClockTextInjective | tratamentoDados/criacsv.py:46 | distinct valid clock readings give distinct time texts |
| CsvConversion.ReadingClock | tratamentoDados/criacsv.py:38-44 | a reading's date, with its last character cut, gives a valid hour and minute when it parses |
| CsvConversion.Rows | tratamentoDados/criacsv.py:37-49 | the conversion succeeds iff every date parses, with one row per reading; otherwise it fails with a bad-timestamp error |
| CsvConversion.RowsReadBack | tratamentoDados/criacsv.py:37-49 | row i is exactly the unpadded `H:MM` text of reading i's clock together with reading i's body; that text reads back as the hour and minute of reading i's date |
| CsvConversion.JsonToCsv | tratamentoDados/criacsv.py:29-49 | the conversion completes iff every date parses, and otherwise fails with a bad-timestamp error; a completed table is the `data,body` header followed by one row per reading, row i holding the `H:MM` text of reading i's hour and minute and reading i's body |
| CsvConversion.RowIgnoresDateAndSeconds | tratamentoDados/criacsv.py:42-49 | two readings with the same body whose dates agree on hour and minute give the same row, whatever their date and seconds |
| CsvConversion.SampleDateParses | tratamentoDados/criacsv.py:42-44 | `2024-05-10T09:07:31.250` parses to 2024-05-10 09:07:31, the fraction of a second dropped |
| CsvConversion.ExampleRow | tratamentoDados/criacsv.py:37-49 | the reading dated `2024-05-10T09:07:31.250Z` with body 4.5 becomes the row `9:07,4.5` |
| CsvConversion.SplitExt | tratamentoDados/criacsv.py:64 | the stem and the extension concatenate back to the name; the extension is empty or a dot followed by no other dot; it is non-empty iff some character before the last dot is not a dot |
| CsvConversion.CsvName | tratamentoDados/criacsv.py:58-65 | a name gets an output file iff it ends in `.json`, and the output name ends in `.csv` |
| CsvConversion.CsvNameReplacesExtension | tratamentoDados/criacsv.py:58-65 | `stem.json` becomes `stem.csv` whenever the stem is not made only of dots |
| CsvConversion.DotOnlyNameKeepsJson | tratamentoDados/criacsv.py:63-65 | `.json` has no extension to split off, so its output name is `.json.csv` |
| TopicSplit.FalsyTopicSkipped | tratamentoDados/separajson.py:47-49 | a line whose topic is missing, null, false, zero, empty text, an empty array or an empty object is skipped; a text topic is grouped iff it is non-empty and the line is inside the window |
| TopicSplit.MembersCarryTopic | tratamentoDados/separajson.py:47-52 | every line in a topic's reference list lies inside the inclusive window and carries that non-empty topic |
| TopicSplit.GroupedLineInOneTopic | tratamentoDados/separajson.py:47-52 | a window line with a non-empty text topic is in the list of its own topic and of no other |
| TopicSplit.MembersHoldLine | tratamentoDados/separajson.py:47-52 | a window line with a non-empty text topic is among its topic's lines |
| TopicSplit.AddToGroup | tratamentoDados/separajson.py:50-52 | a line with a known topic is appended to that topic's group and no other group changes; a new topic opens a group at the end; topics stay distinct |
| TopicSplit.GroupLines | tratamentoDados/separajson.py:40-52 | the grouping loop never creates two groups for one topic |
| TopicSplit.GroupsAreMembers | tratamentoDados/separajson.py:40-52 | each group built by the loop holds exactly its topic's lines in file order, and a topic has a group iff some window line carries it |
| TopicSplit.StripTopic | tratamentoDados/separajson.py:55-58 | the written line has no `topic` field, and every other field and the instant are unchanged |
| TopicSplit.StripAll | tratamentoDados/separajson.py:55-58 | every line of a group loses its topic field, order and length kept |
| TopicSplit.FirstAt | tratamentoDados/separajson.py:47-52 | the index of the first window line carrying a topic: that line carries it and no earlier line does; -1 when no line carries it |
| TopicSplit.GroupsInFirstAppearanceOrder | tratamentoDados/separajson.py:40-52 | the loop's groups come in the order of their topics' first lines |
| TopicSplit.FirstAppearanceStep | tratamentoDados/separajson.py:47-52 | one line keeps the groups in first-appearance order: a new group is opened only for a topic no earlier line carries, at the end |
| TopicSplit.OrderSurvivesNewLine | tratamentoDados/separajson.py:47-52 | a topic carried before the last line keeps its first position |
| TopicSplit.OrderWithNewTopic | tratamentoDados/separajson.py:50-52 | a topic first carried by the last line goes after all the others |
| TopicSplit.CarriedTopicHasGroup | tratamentoDados/separajson.py:47-52 | a topic some window line carries has a group |
| TopicSplit.SplitByTopic | tratamentoDados/separajson.py:40-58 | fails iff a window line has a truthy topic that is not text; otherwise the groups have distinct non-empty topics in order of first appearance, each holds its topic's lines with the topic removed, and a topic has a group iff some window line carries it |
| TopicSplit.ReplaceChar | tratamentoDados/separajson.py:66 | each occurrence of one character is replaced by the other and every other character is kept, length unchanged |
| TopicSplit.TopicFileName | tratamentoDados/separajson.py:66 | the name is the topic with each `/` or space replaced by `_`, then `.json`; it contains no `/` and no space |
| TopicSplit.WriteGroups | tratamentoDados/separajson.py:65-69 | there are at most as many files as groups, and the last group written owns its file |
| TopicSplit.FilesMatchTopics | tratamentoDados/separajson.py:47-69 | when the groups' topics are exactly the topics the window carries, the file names are exactly those topics' file names |
| TopicSplit.WriteGroupsNames | tratamentoDados/separajson.py:65-69 | every group's file name is in the output directory, and every file comes from some group |
| TopicSplit.WriteGroupsLastWins | tratamentoDados/separajson.py:65-69 | the file for a group holds that group's lines when no later group writes to the same name |
| TopicSplit.SplitJson | tratamentoDados/separajson.py:40-69 | fails iff a window line has a truthy non-text topic; otherwise every written file is named after a topic that some window line carries, and every such topic has a file under its name |
| TopicSplit.EveryTopicWrittenWhenNamesDistinct | tratamentoDados/separajson.py:40-69 | when no other topic of the window shares its file name, a topic's file holds exactly its lines in file order with the topic removed |
| TopicSplit.SharedFileGoesToLatestTopic | tratamentoDados/separajson.py:40-69 | of the topics sharing a file name, the one whose first line comes last owns the file, which holds exactly its lines with the topic removed |
| TopicSplit.CollidingTopicsInSplit | tratamentoDados/separajson.py:40-69 | lines of `a/b` at instant 0 and `a_b` at instant 1 give the single file `a_b.json` holding only the `a_b` line, topic removed |
| TopicSplit.CollidingTopicsOverwrite | tratamentoDados/separajson.py:65-69 | the file name is not injective: topics `a/b` and `a_b` both map to `a_b.json`, and the later group's lines replace the earlier group's |

## Left out

- File, CSV and JSON reading and writing, `argparse` front ends, directory
  listing, globbing and directory creation are left out. The model takes the
  parsed rows, readings and lines as sequences and returns the written
  content as a value.
- Time-zone handling in `separajson.py` is left out: the London
  conversion, the Noronha localisation and the `$date` parse. A line carries
  its instant as an integer, and the window ends are integers.
- `pd.to_datetime` of the `data` column is left out in `calculaEscoamento.py`
  and in `corrigeNivel.py:31`. The rows carry their instants directly.
  `CsvConversion.ParseClockText` models only which texts the level script's
  `%H:%M` parse accepts. Two effects of that parse are not modelled. It
  raises on a malformed time. It puts every row on 1900-01-01, so a
  recording that crosses midnight sorts `0:05` before `23:55`.
- Floating-point arithmetic is modelled as exact `real` arithmetic. Rounding
  in the flow quotient and in the level comparisons is not modelled. The
  infinities and NaN of a zero time gap are modelled (`Discharge.PairFlow`);
  no other float special value is.
- Every `body` cell is taken to be a number. It need not be one. The volume
  firmware publishes the text `Erro` for a negative volume
  (`platformIO_espEscoamento/src/main.cpp:270-271`), which happens when a
  distance reading exceeds the first one plus 0.3 cm
  (`platformIO_espEscoamento/src/main.cpp:301`). A column holding such text
  is read as strings, and then the `>=` of `corrigeVolume.py:33` compares
  strings, under which `Erro` ranks above every number. An empty cell reads
  as NaN, and every `>=` against a NaN threshold is false. A NaN level in
  the earliest row makes `corrigeNivel.py:45` keep no row at all, where the
  model promises at least one. A NaN volume in the last row makes
  `corrigeVolume.py:33` keep nothing, so only the forced first row is
  written, where the model promises at least two. Text and NaN cells are not
  modelled.
- Series.SortByTime: a stable insertion sort stands in for pandas'
  `sort_values`, whose order among rows with equal instants is unspecified.
  The contract states only that the output is a time-sorted permutation.
  `LevelCorrection.CorrectLevels` names the rows the stable order keeps.
  Under pandas, tied rows may come out in another order, and then other rows
  may be kept.
- Series.SortSortedIsIdentity: true of the stable stand-in sort only. pandas
  may swap the rows of an already sorted series that share an instant.
  `Series.StrictOrderIsUnique` is the sort-independent statement for
  series without shared instants.
- LevelCorrection.CorrectLevelsIdempotent: holds for the series, not for the
  files, and relies on the stable sort. `corrigeNivel.py:53` writes the
  parsed column back as `1900-01-01 HH:MM:SS`, which its own `%H:%M` parse at
  line 31 rejects, so the script cannot be run on its own output. With
  pandas and rows that share an instant, the second pass can drop rows.
  Two readings at one instant are common, because the level is recorded
  every 30 s and the converted time has only minutes.
  `LevelCorrection.SecondPassUnderAnySort` states idempotence under any
  sort when no two readings share an instant, and
  `LevelCorrection.RunningMaxFilterIdempotent` states it for the filter
  alone.
- CsvConversion.ParseIsoStamp: covers the `YYYY-MM-DD?HH:MM[:SS[.fff[fff]]]`
  subset of `datetime.fromisoformat`. Zone offsets, week dates, the compact
  forms and the other forms it accepts are not modelled and count as parse
  failures.
- CsvConversion.ParseClockText: `\d` is modelled as the ASCII digits only.
  Other Unicode decimal digits are not modelled.
- CsvConversion.JsonToCsv: a refused date is an error result. `criacsv.py`
  opens the output file and writes the header (lines 29-34) before the first
  date is parsed (line 42), so after a bad date the file exists, holding the
  header and the rows written so far.
- CsvConversion.Rows: a date the parser refuses stops the conversion with
  an error. The partly written CSV file that the script leaves behind is not
  modelled.
- The loop of `process_folder` over the folder's files, including the
  `JSONDecodeError` it catches and prints, is left out. Only its output-name
  rule is modelled, by `CsvName`.
- A missing `datetime`, `$date` or `body` key raises `KeyError` in the
  scripts. This is not modelled: every reading and line carries these fields
  by construction.
- TopicSplit.SplitByTopic: a truthy topic that is not a string is one error,
  `TopicNotText`. In the script it fails in one of two places. A list or
  object topic cannot be used as a dictionary key (line 50). A number or
  boolean topic has no `replace` (line 66), and by then the files of earlier
  topics have already been written. Those partial writes are not modelled.
- `plotAvancado.py`, `plotComparativo.py` and `graficoSimulacao.py` are not
  modelled. They are plotting code whose curve fitting is floating-point
  library calls.
- The two firmware `main.cpp` files and `WiFiState.h` are not modelled.
  They are sensor and network I/O.
