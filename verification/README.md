# Leviculum in Dafny

A model of the self-contained logic of the leviculum repository, with proofs about it:

- **The daily counter of `lblogd`** (`Calendar`, `Text`, `Record`, `RecordProofs`, `RecordMeaning`, `RecordCuts`,
  `CounterFile`, `CounterModel`, `CounterStart`, `CounterKinds`, `CounterRuns`, `CounterReopen`, `CounterTorn`, `CounterBounds`, `CounterTally`, `CounterLives`,
  `CounterLoss`). An append-only file of one line per save, read with "the last record for a date
  wins". A clock may move either way, a write may stop at any character, the process may be killed at any point,
  and a start may compact the file. A run is a sequence of observations, flushes, kills and starts, each with its own
  clock reading and write outcome.
- **The world outline tables** (`Bits`, `Outline`, `OutlineReader`). The encoder is the baking script, the decoder is
  the map crate's reader.
- **Wire framing and masking** (`Hdlc`, `Ifac`). Byte stuffing against the crate's streaming deframer, and interface
  access codes with signing and key stream as arbitrary functions.
- **Serving** (`NodeQueue`, `NodeOrder`, `NodeDrain`, `Watcher`, `Slug`, `Site`, `Serving`). The per-link response queue, the reload pipeline,
  the shared namespace of posts, pages and links, and the request handlers across reloads.
- **Two script helpers** (`RustSource`, `RustLexemes`, `Recipes`). The lexer that blanks comments and literals, and the gate over the
  recipes `just` runs.

Objects the source updates in place are classes (`CounterModel.Counter`, `OutlineReader.BitReader`, `Hdlc.Deframer`,
`NodeQueue.BlogNode`, `Serving.BlogNode`, `RustSource.Scanner`). Each of their methods is proved to do what a function
of the old state says, and the theorems about whole runs are about those functions.

`dafny verify dfyconfig.toml` checks the project.

## Where the code differs from what it says

- A closed day can be reopened. A process that has moved on to a later day but is killed before anything of that day
  is saved leaves the earlier day the newest in the file, and a start under an earlier clock then resumes and changes
  it, with nothing but successful writes (`ClosedDayIsReopened`). A day is safe from every later run if and only if a
  newer one is already in the file (`FrozenIffNewerRecorded`); within one life the promise holds (`OpenDayIsAFloor`).
- A completed record need not survive. A fragment left by a torn write stays in the file unless that start compacts
  it, and the next record is glued to it: a flush can report success and its record still be unreadable
  (`SavedRecordIsLost`), whether the cut was in the record or in the header of a new file. `SavedIsReadIffCutHeals`
  says exactly when it is read, for every process and every cut, `CutHeals` and `HeaderCutHeals` say which cuts those
  are, and `GluedRecord` that a glued line is never read as a mix.
- A save that fails when a new day begins drops what the old day had not saved, while the process lives
  (`LossIsExact`).
- The order of a link's responses is not kept, in two ways. A response refused on a drain goes to the back of its queue
  (`RotationIsReachable`). A request handled after a transfer has ended, but before the event that says so, finds the
  slot free and goes before the whole queue (`OvertakingIsReachable`), as often as requests come (`Starves`). There is
  no third way (`OrderStep`, `OrderKeptIffUndisturbed`).
- A send that fails outright while draining leaves the rest of that queue with no event to come (`StallIsReachable`);
  it is the one step that does (`ServedStep`).
- A full event queue loses nothing, as the comment says, but a reload that fails with nothing queued behind it leaves
  an old snapshot live with no reload coming (`LossIsReachable`); it is the one step that does (`StepLosesNothing`).
- A time before 1970 is truncated toward zero, so in the last fraction of a second before midnight it is dated a
  day late (`DayOfIsUtcDay`). A year that is not an `i32` wraps (`CivilFromDaysIsCalendar`).
- Posts are not checked against each other or against the reserved names, so a post may take the place of the index
  or the about page (`PostTakesIndex`, `RenderSurvives`), and of two posts with one slug the last is served
  (`PostSurvives`); pages and links never lose theirs (`PagesAndLinksSurvive`).
- Two links of one name would both load, and the first takes the page of that name; the configuration's table cannot
  hold two (`LoadedNamesApart`).
- The varint reader's comment says a number past 32 bits is refused. Only one past 35 bits is; between the two the
  bits above 32 are dropped (`VarintReads`), and 2^32 is read as zero (`VarintPast32Bits`).

## Model

| member | source | states |
|---|---|---|
| `Calendar.CivilStep` | lblogd/src/post.rs:130-146 | for every day number the closed form yields a date that exists, and the next day number yields the next calendar day by `days_in_month` |
| `Calendar.CivilIsStepped` | lblogd/src/post.rs:130-163 | before its cast to `i32`, the closed form equals walking the calendar day by day from 1970-01-01, both ways, for every integer |
| `Calendar.CivilFromDaysIsCalendar` | lblogd/src/post.rs:130-163 | with the cast, it equals that walk if and only if the day lies between -2147483648-01-01 and 2147483647-12-31 |
| `Calendar.CivilFromDaysOrdered` | lblogd/src/post.rs:130-163 | on those days it yields only dates that exist, is injective, and is strictly increasing in the derived order, both directions |
| `Calendar.CivilFromDaysOnto` | lblogd/src/post.rs:130-163 | every existing date with an `i32` year is reached, from a day number given in closed form |
| `Calendar.DayOfIsUtcDay` | lblogd/src/post.rs:116-122 | the day taken from a clock is the UTC day if and only if the time is not in the last fraction of a second of a day before 1970 |
| `Calendar.DayOfBeforeEpochExample` | lblogd/src/post.rs:116-122 | a concrete time before 1970 that is dated a day late |
| `Record.ParseDate` | lblogd/src/post.rs:88-108 | whatever parses is a date that exists, in the years 0 to 9999 |
| `Record.DateRoundTrip` | lblogd/src/post.rs:82-108 | a printed date parses back to itself for the years 0 to 9999, and does not parse for any other year |
| `Record.DateTextIs` | lblogd/src/post.rs:82-86 | a printed date is four digits of year, two of month and two of day, that spell them |
| `Record.TimeTextIs` | lblogd/src/counter.rs:531-544 | a printed time is hours, minutes and seconds that make up the second of the day |
| `RecordMeaning.ParseDateIs` | lblogd/src/post.rs:88-108 | any text is a date exactly when it is three numbers of four, two and two characters between hyphens that make a date that exists |
| `RecordMeaning.ParseUnsignedIs` | lblogd/src/counter.rs:220-237 | any text is a total exactly when it is digits worth at most its maximum, with or without a plus |
| `Record.ReadClockOnto` | lblogd/src/counter.rs:531-544 | every day with an `i32` year and every second of it is the reading of some clock, so runs quantify over real clocks |
| `Record.FormatRecord` | lblogd/src/counter.rs:519-526 | the written line is `RecordText`, whose fields `KeyFieldsAre` lists and which the round trip and the glue theorem are about |
| `Record.KeyFieldsAre` | lblogd/src/counter.rs:207-218 | the totals of a line: every key by its name, in its place, with its own total |
| `Record.ParseRecord` | lblogd/src/counter.rs:588-608 | the loop computes `RecordOf`, the reader of the round trip and the glue theorem |
| `RecordMeaning.ReadFieldsMean` | lblogd/src/counter.rs:588-608 | for every list of fields: they can be read exactly when each can, and each key has its last value |
| `RecordMeaning.RecordMeans` | lblogd/src/counter.rs:588-608 | for every line: it is a record exactly when its first word is `DAY`, each further word can be read and one is a date; its values are the last of their keys, zero for a total that is missing, and unknown keys change nothing |
| `RecordProofs.ReadBody` | lblogd/src/counter.rs:207-237 | read after any earlier fields, a record's fields replace the date and all six totals, or the line does not parse |
| `RecordProofs.RecordRoundTrip` | lblogd/src/counter.rs:588-608 | a record reads back as its date and totals when its year has four digits and its totals are `u64`s, and as nothing otherwise |
| `RecordProofs.GluedRecord` | lblogd/src/counter.rs:588-608 | glued to any text at all, a record's line reads as exactly that record or as nothing, with the exact condition on the text |
| `RecordProofs.CutInsideATotal` | lblogd/src/counter.rs:220-237 | a write cut inside a total spoils every record glued to it |
| `RecordCuts.CutHeals` | lblogd/src/counter.rs:588-608 | for every record and every cut of it: what is left lets the next record be read if and only if nothing is left, or the cut is in the value of `tz` or of `written` and the fields before it are readable |
| `CounterFile.ReadRecords` | lblogd/src/counter.rs:553-581 | the loop over newline-terminated lines, final fragment dropped, yields `Entries` and the number of record lines |
| `CounterFile.LinesAreText` | lblogd/src/counter.rs:553-581 | the lines and the fragment are the whole file in order, each line with its only newline at its end |
| `CounterFile.EntriesAreLast` | lblogd/src/counter.rs:553-581 | for all lines: entries are in strict date order, and each date's totals are those of its last record |
| `CounterFile.Compact` | lblogd/src/counter.rs:616-635 | the rewritten file is the header and one line per entry |
| `CounterFile.ReadCompacted` | lblogd/src/counter.rs:616-635 | reading a compacted file returns the entries it was written from, with one record line each and no fragment |
| `CounterFile.CompactionPreserves` | lblogd/src/counter.rs:348-352 | for every file: compaction keeps what a reader sees for every date and the entries themselves, and leaves nothing to compact again |
| `CounterFile.SurvivorVerbatim` | lblogd/src/counter.rs:553-581 | the line kept for a date is, character for character up to its trailing white space, its last record line, unknown keys included |
| `CounterModel.Counter.Disabled` | lblogd/src/counter.rs:285-296 | a counter that is off, with nothing counted and nothing written |
| `CounterModel.Counter.Open` | lblogd/src/counter.rs:325-364 | opening a file does `Opened`, which `StartCompacts` and `OpenKeeps` describe: resume the newest date unless the clock is past it, compact when a date has several records |
| `CounterStart.DuplicateIff` | lblogd/src/counter.rs:348-352 | there are more record lines than dates exactly when two lines are records for one date |
| `CounterStart.StartCompacts` | lblogd/src/counter.rs:348-352 | for every file and clock: a start that reaches its rename rewrites a file with two records for one date to the header and one record line a date, with no fragment and the same view, and leaves every other file exactly as it is |
| `CounterModel.Counter.Append` | lblogd/src/counter.rs:473-500 | a save does `Appended` for every write outcome: nothing when nothing is new, header first in an empty file, `flushed` moves only on success; nothing when the counter is off |
| `CounterModel.Counter.Roll` | lblogd/src/counter.rs:446-469 | a clock reading does `Rolled`: stay, stay and warn when behind, or save and open the new day |
| `CounterModel.Counter.Record` | lblogd/src/counter.rs:429-439 | an observation does `Recorded`, whose totals `RecordedCountsKinds` tells, or nothing when the counter is off |
| `CounterKinds.RecordedCountsKinds` | lblogd/src/counter.rs:371-394 | each of the six totals rises by one exactly for the observations of its kind, from zero on a new day |
| `CounterModel.Counter.Flush` | lblogd/src/counter.rs:409-421 | a flush does `Flushed` and reports success when the write succeeds or none is needed; nothing when the counter is off |
| `CounterStart.FlushWritesIffCounted` | lblogd/src/counter.rs:409-421 | a flush writes exactly when something was counted since the last save, at a rollover too |
| `CounterRuns.RecordAppended` | lblogd/src/counter.rs:473-500 | a record appended to any file shows for its day exactly when the fragment lets it, and leaves every other day as it was |
| `CounterRuns.WholeAppend` | lblogd/src/counter.rs:473-500 | a whole save ends the file with a complete line, and is seen for its day if and only if the fragment before it heals, the year has four digits and the totals are `u64`s |
| `CounterRuns.TornAppend` | lblogd/src/counter.rs:473-500 | a write that stops anywhere before its end, header included, shows a reader nothing new |
| `CounterRuns.AnyAppend` | lblogd/src/counter.rs:473-500 | however a save ends, it changes at most the open day, and only to the open day's totals |
| `CounterRuns.TidiedSeen` | lblogd/src/counter.rs:348-352 | whether or not a compaction reaches its rename, a start changes nothing a reader sees |
| `CounterRuns.OpenKeeps` | lblogd/src/counter.rs:325-364 | a start under any clock on any file is consistent with it, and resumes exactly what the file shows for its open day |
| `CounterRuns.StepKeeps` | lblogd/src/counter.rs:429-500 | every step keeps the invariant between memory and file, never lowers what a reader sees, leaves days below the open day alone and never moves the open day back |
| `CounterRuns.ViewNeverShrinks` | lblogd/src/counter.rs:325-500 | over every run, what a reader sees for a date never decreases and never disappears |
| `CounterRuns.RecordedPastIsFrozen` | lblogd/src/counter.rs:325-500 | over every run, restarts included, a date older than a recorded one never changes |
| `CounterRuns.OpenDayIsAFloor` | lblogd/src/counter.rs:47-62 | until a kill, the open day never moves back and every date below it is frozen; across kills and restarts, a date below it is frozen once a newer one is recorded |
| `CounterReopen.Reopened` | lblogd/src/counter.rs:325-364 | from any consistent state with no newer date in the file, a kill, a start on that day and two saved sessions raise what a reader sees by two, behind any fragment |
| `CounterReopen.FrozenIffNewerRecorded` | lblogd/src/counter.rs:304-310 | for every consistent state: no run with whatever clocks, kills and restarts changes what a reader sees for a day, if and only if a newer date is already in the file |
| `CounterReopen.ClosedDayIsReopened` | lblogd/src/counter.rs:47-62 | for any two days in order, a run of successful writes that closes and writes the first, then reopens and changes it |
| `CounterTorn.SavedIsReadIffCutHeals` | lblogd/src/counter.rs:76-82 | for every process with unsaved totals and every cut of its save, header included: the next save succeeds, and a reader then and after any kill and start sees it if and only if the fragment left lets it be read; other days are as they were |
| `CounterTorn.HeaderCutHeals` | lblogd/src/counter.rs:130-136 | a cut in the header heals if and only if it is at the start of a line |
| `CounterTorn.SaveCutHeals` | lblogd/src/counter.rs:473-500 | for every save to a file without a fragment: exactly which cuts of header and record heal, by position |
| `CounterTorn.SavedRecordIsLost` | lblogd/src/counter.rs:76-82 | runs from an empty file, with a cut in the header and with one in the record, in which a save succeeds and its total is gone after a kill and a start |
| `CounterBounds.StepBound` | lblogd/src/counter.rs:429-500 | a step adds to a day's totals only by an observation, only on the open day, and no more than that observation |
| `CounterBounds.NothingInvented` | lblogd/src/counter.rs:325-500 | over every run, with torn writes, kills and restarts: each of the six totals, summed over any days, is at most its start plus what the observations add, `clock_behind` by those whose day is before the open day |
| `CounterTally.CounterIsTally` | lblogd/src/counter.rs:371-469 | with successful writes, file and memory together hold the tally: each observation counts for the running maximum of the days seen, and as behind when its own day is earlier |
| `CounterKinds.TallyCountsKinds` | lblogd/src/counter.rs:371-394 | each total of a day in the tally is what it was plus the number of observations of its kind counted for that day |
| `CounterKinds.DayAfterIsLatest` | lblogd/src/counter.rs:446-469 | the day an observation counts for is the latest of the first open day and all clock days so far |
| `CounterKinds.WarnedIffBehind` | lblogd/src/counter.rs:446-469 | over any life, however its writes end: the open day is the latest day, and the process has warned exactly if some reading was behind |
| `CounterTally.StartExact` | lblogd/src/counter.rs:325-364 | a process started on any file whose fragment heals or is compacted away starts the tally from what the file shows |
| `CounterTally.UnsavedIsOpenDay` | lblogd/src/counter.rs:409-469 | what a run has not saved is observations only, all counted for its open day |
| `CounterLoss.LossIsExact` | lblogd/src/counter.rs:446-469 | over every run whose writes succeed or fail with nothing written: each total over all days is exactly its start plus what was counted less what each failed save at a new day found unsaved, and memory is ahead of the file by exactly what was counted since the last save |
| `CounterTally.FileIsSavedTally` | lblogd/src/counter.rs:409-500 | the file alone shows exactly the tally of the run up to its last save |
| `CounterTally.KillLosesOnlyUnsaved` | lblogd/src/counter.rs:325-500 | killed after any such run and started under any clock, the counter stands for the tally of the saved part, with nothing unsaved and ready to go on: nothing else is lost |
| `CounterLives.RebornDay` | lblogd/src/counter.rs:325-364 | a life opens on its clock's day, or on the newest day in the file when the clock is behind that |
| `CounterLives.CounterIsTallyOfLives` | lblogd/src/counter.rs:325-500 | over any number of lives, each ended by a kill and a start, the counter stands for exactly the sum of what they saved |
| `CounterTally.EachObservationOnce` | lblogd/src/counter.rs:371-394 | conservation: over any set of days holding those reached, the request and session totals grow by exactly the number of observations |
| `Outline.Uv` | scripts/bake-world-outline.py:80-89 | the loop yields the unsigned LEB128 bytes that `VarintRoundTrip` reads back |
| `Outline.UvIsLeb128` | scripts/bake-world-outline.py:80-89 | seven bits a byte from the lowest, the top bit on all but the last, and no byte more than needed |
| `Outline.Put` | scripts/bake-world-outline.py:105-112 | the value's bits follow the bits already put, least significant first, and fewer than eight stay behind |
| `Outline.Pack` | scripts/bake-world-outline.py:101-122 | the bytes are the documented codes one after another, filled up with zeros, and no byte more |
| `Outline.FilledIsPacked` | scripts/bake-world-outline.py:101-122 | that description determines the bytes, so the same input gives the same bytes |
| `Outline.ChooseWidth` | scripts/bake-world-outline.py:129 | the width is the least of 1 to 19 with the fewest bits |
| `Outline.NoEscapeAtFullWidth` | scripts/bake-world-outline.py:96-98 | no delta between grid points is escaped at width 19, and every one fits the escape's 19 bits |
| `Outline.ValuesFit` | scripts/bake-world-outline.py:125-128 | every zigzagged delta of a ring on the grid fits |
| `Outline.EncodeRing` | scripts/bake-world-outline.py:125-141 | one ring is written as its eight numbers, its width and its packed deltas |
| `Outline.RingLayout` | scripts/bake-world-outline.py:125-141 | a ring's bytes as the format lists them, with the distances to the sides of the box around its points |
| `Outline.DeltasLayout` | scripts/bake-world-outline.py:92-122 | a ring's deltas are the codes of its steps at the best width, a step back told by its low bit |
| `Outline.TableLayout` | scripts/bake-world-outline.py:171-175 | the file begins with its four letters, 18 and the number of rings |
| `Outline.Bake` | scripts/bake-world-outline.py:171-175 | the file is the magic, the grid bits, the count and the rings |
| `OutlineReader.BitReader.Take` | leviculum-map/src/outline.rs:85-93 | `n` bits from the cursor, least significant first, zeros past the end |
| `OutlineReader.BitReader.Delta` | leviculum-map/src/outline.rs:96-103 | one code is read, escaped or not, and the cursor moves past it |
| `OutlineReader.Points` | leviculum-map/src/outline.rs:108-122 | the iterator yields the points of `PointsOf`, which `PointsReturn` is about |
| `OutlineReader.Varint` | leviculum-map/src/outline.rs:136-147 | the loop reads a varint, or nothing past the end or past five bytes |
| `OutlineReader.VarintRoundTrip` | leviculum-map/src/outline.rs:136-147 | a written number is read back, wherever it stands, if and only if it is a `u32` |
| `OutlineReader.VarintReads` | leviculum-map/src/outline.rs:136-147 | any written number is read as its low 32 bits when it has at most 35, and refused when it has more |
| `OutlineReader.VarintPast32Bits` | leviculum-map/src/outline.rs:134-147 | a concrete number past 32 bits that is not refused |
| `OutlineReader.VarintOnAnyBytes` | leviculum-map/src/outline.rs:136-147 | on any bytes: a number is read exactly when a byte without the top bit comes within five, and is the low 32 bits of what they spell |
| `OutlineReader.TableOnAnyBytes` | leviculum-map/src/outline.rs:155-163 | on any bytes: a table is what begins with LWO2 or LWL2 and names 8 to 24 bits |
| `OutlineReader.EntryOnAnyBytes` | leviculum-map/src/outline.rs:178-210 | on any bytes: an entry is read exactly when its numbers are there, its box is of 32-bit numbers around its first point, its width is allowed and its deltas are all there |
| `OutlineReader.PointsAreU32` | leviculum-map/src/outline.rs:108-122 | every point handed out is of 32-bit numbers, zero for one below zero |
| `OutlineReader.Entries` | leviculum-map/src/outline.rs:178-210 | the reader yields `EntriesOf`, the entries of the two theorems below |
| `OutlineReader.CutTableEndsEarly` | leviculum-map/src/outline.rs:166-210 | for any bytes at all: cutting a table short yields a prefix of its entries, none invented or altered |
| `OutlineReader.DeltaOfCode` | leviculum-map/src/outline.rs:96-103 | at the cost of the values before it, the reader finds exactly value `i` and the start of the next |
| `OutlineReader.PointsReturn` | leviculum-map/src/outline.rs:108-122 | walking a written ring's deltas visits exactly its points |
| `OutlineReader.RingReturns` | leviculum-map/src/outline.rs:178-210 | a written ring is read back wherever it stands, and its length field skips exactly to the next |
| `OutlineReader.TableRoundTrip` | scripts/bake-world-outline.py:26-39 | every written list of rings is read back with the same hole flags, bounding boxes and points, and as nothing under the other magic |
| `Hdlc.Frame` | scripts/generate_test_vectors.py:599-608 | the loop yields the frame the deframer theorems are about |
| `Hdlc.FrameBytes` | scripts/generate_test_vectors.py:595-608 | a frame byte by byte: 7E at both ends, 7D 5E for 7E and 7D 5D for 7D |
| `Hdlc.FrameToSlice` | leviculum-core/src/framing/hdlc.rs:77-111 | in a caller's buffer the crate writes the same frame, exactly when it fits |
| `Hdlc.FlagOnlyAtEnds` | scripts/generate_test_vectors.py:599-608 | no stuffed byte is FLAG, so a frame has it at its two ends only |
| `Hdlc.Deframer.Reset` | leviculum-core/src/framing/hdlc.rs:272-276 | back to the idle state |
| `Hdlc.Deframer.Push` | leviculum-core/src/framing/hdlc.rs:346-356 | one more byte, or the whole frame dropped and reported at the ceiling |
| `Hdlc.Deframer.ProcessByte` | leviculum-core/src/framing/hdlc.rs:311-338 | one byte does `Next`, the step function of the stream theorems |
| `Hdlc.Deframer.Process` | leviculum-core/src/framing/hdlc.rs:298-308 | a read of bytes does `Fed`, the run of the stream theorems |
| `Hdlc.FedConcat` | leviculum-core/src/framing/hdlc.rs:298-308 | however a stream is cut into reads, the results are the same |
| `Hdlc.BufferBounded` | leviculum-core/src/framing/hdlc.rs:346-356 | whatever arrives, the buffer never outgrows the ceiling |
| `Hdlc.StreamReturns` | leviculum-core/src/framing/hdlc.rs:311-338 | a stream of frames is reported message by message: whole within the ceiling, as oversized beyond it, not at all when empty |
| `Hdlc.Resynchronises` | leviculum-core/src/framing/hdlc.rs:311-338 | from any state, after any garbage: the first frame yields its message, or closes the frame left open, and everything after it is reported in full |
| `Hdlc.StreamIsUnambiguous` | scripts/generate_test_vectors.py:590-608 | a stream of frames of non-empty messages splits in only one way |
| `Ifac.Mask` | scripts/generate_test_vectors.py:693-722 | the loop yields the masking the verifiers are judged by, whose bytes `MaskedLayout` tells |
| `Ifac.MaskedLayout` | scripts/generate_test_vectors.py:693-722 | byte by byte: flag set and the rest of the first byte masked, the last bytes of the signature as they are after the second, everything else masked with their key stream |
| `Ifac.VerifyScript` | scripts/generate_test_vectors.py:725-756 | the script's verifier ends as `ScriptVerdict` says: the packet, None, or an index error on a packet of fewer than two bytes |
| `Ifac.RefusalKinds` | leviculum-core/src/ifac.rs:293-357 | which error each refused packet gets, from the script and the crate, and that a rotation keeps the primary key's |
| `Ifac.CrateAcceptsMasked` | leviculum-core/src/ifac.rs:307-357 | for any signing and key-stream functions, the crate accepts exactly the maskings of packets with bit 7 clear, each as that packet |
| `Ifac.VerifiersAgree` | scripts/generate_test_vectors.py:725-756 | script and crate accept the same packets with the same contents |
| `Ifac.MaskRoundTrip` | scripts/generate_test_vectors.py:693-756 | verifying a masked packet returns it if and only if its bit 7 was clear |
| `Ifac.RotationAcceptsEither` | leviculum-core/src/ifac.rs:293-305 | with an alternate key, exactly what either key masked is accepted, and the primary's reading wins |
| `Ifac.RotationNeverDrops` | leviculum-core/src/ifac.rs:191-212 | two nodes at most one rotation step apart always accept each other's packets |
| `RustSource.Scanner.Blank` | scripts/rust_source.py:33-36 | in place: the range becomes spaces but for its newlines, the rest is untouched |
| `RustSource.Scanner.StripNoise` | scripts/rust_source.py:22-81 | the in-place scan, nested comments and raw strings included, ends and yields `Stripped` |
| `RustLexemes.LexemeIsNoise` | scripts/rust_source.py:39-80 | what the lexer blanks is exactly a line comment to its newline, a block comment to where openers less closers come to zero, a raw string to its quote and hashes, a string to its first quote after an even number of backslashes, or a character literal |
| `RustLexemes.StrippedIffLexed` | scripts/rust_source.py:22-81 | for every source: the result is the one text that blanks every such lexeme and keeps every other character, and no other |
| `RustSource.StrippedIsBlanking` | scripts/rust_source.py:22-81 | length and every newline are kept, and characters change only to spaces |
| `RustSource.StrippedHasNoOpeners` | scripts/rust_source.py:22-81 | no `"`, `//` or `/*` is left anywhere |
| `RustSource.StripIsIdempotent` | scripts/rust_source.py:22-81 | stripping twice is stripping once, for every source, unclosed literals included |
| `Recipes.Walk` | scripts/check-guards-subset.py:98-104 | from any point of a walk over any graph, the walk finishes its recipe last, keeps the walk's invariant, and extends the order as running that recipe would |
| `Recipes.RankFalls` | scripts/check-guards-subset.py:88-107 | where no cycle is reachable, a dependency leads to strictly fewer recipes than its dependent, so every such graph has a reference order |
| `Recipes.ExecutionOrder` | scripts/check-guards-subset.py:88-107 | for every graph: exactly the recipes reachable from the root, each once, without the root; each after its dependencies if and only if no cycle is reachable, and then the order `just` is documented to run |
| `Recipes.SubsetFindings` | scripts/check-guards-subset.py:154-162 | reports exactly the subset's recipes the superset never reaches |
| `Recipes.OrderFindings` | scripts/check-guards-subset.py:164-180 | silent if and only if the shared recipes are a subsequence of the superset; otherwise reports exactly those the superset runs before their predecessor |
| `Recipes.CoverageFindings` | scripts/check-guards-subset.py:182-199 | reports exactly the superset's recipes neither shared nor excused |
| `Recipes.LedgerFindings` | scripts/check-guards-subset.py:201-216 | reports exactly the ledger lines that excuse nothing, contradict the subset or give no reason, as what they are |
| `Recipes.Findings` | scripts/check-guards-subset.py:129-217 | an error exactly when a recipe is missing; otherwise exactly the findings each of the four checks makes, and silent if and only if the subset's run is a subsequence of the superset's and the ledger accounts for exactly the rest |
| `NodeQueue.BlogNode.SendLarge` | lblogd/src/node.rs:483-514 | a send does `Sending` for each answer of the transport: sent in its form, queued at the back, or logged as failed |
| `NodeQueue.BlogNode.DrainPending` | lblogd/src/node.rs:516-530 | a freed slot does `Draining`: the front response leaves the queue and is sent |
| `NodeQueue.BlogNode.LinkClosed` | lblogd/src/node.rs:414-416 | a closed link's queue is discarded and no other is touched |
| `NodeQueue.EachResponseOnce` | lblogd/src/node.rs:483-530 | over every interleaving: no link maps to an empty queue, and each response is in exactly one place, sent, queued, failed or discarded, in the form it was queued with |
| `NodeQueue.ServedStep` | lblogd/src/node.rs:400-416 | a step leaves every non-empty queue a transfer in flight or a slot-free event if and only if it is not a failed drain that spends the last of them |
| `NodeQueue.AlwaysServed` | lblogd/src/node.rs:400-530 | over every run whose drains never fail outright, no queue is ever stranded |
| `NodeQueue.StallIsReachable` | lblogd/src/node.rs:507-513 | a concrete run that strands a queue |
| `NodeOrder.LogIsSent` | lblogd/src/node.rs:483-514 | over every run, the per-link log of sends holds exactly what the node counts as sent |
| `NodeOrder.OrderStep` | lblogd/src/node.rs:483-530 | from every state in order, a step keeps a link's sent and queued responses in the order of arrival if and only if it is neither a request accepted past a queue nor a refused drain of two or more |
| `NodeOrder.OrderKeptIffUndisturbed` | lblogd/src/node.rs:400-530 | over every run, order holds at every point if and only if no step is one of those two |
| `NodeOrder.OvertakingIsReachable` | lblogd/src/node.rs:483-514 | a concrete run in which a later request is sent while an earlier one is queued |
| `NodeOrder.RotationIsReachable` | lblogd/src/node.rs:516-530 | a concrete run in which a refused drain turns a queue round |
| `NodeDrain.WorkIsBounded` | lblogd/src/node.rs:400-416 | over every run without requests on a link, the steps that work on it are at most what was left to do and one for each segment |
| `NodeDrain.QueueEmpties` | lblogd/src/node.rs:400-530 | in every such run without failed drains, work on the link stays possible until nothing is left, and then its queue is empty |
| `NodeDrain.Starves` | lblogd/src/node.rs:483-530 | for every number, a run that sends that many later requests while an earlier response still waits |
| `Watcher.Debounce` | lblogd/src/watcher.rs:233-251 | the callback is called exactly once per maximal burst, at its end, an end cut short by the sender included |
| `Watcher.StepLosesNothing` | lblogd/src/watcher.rs:120-131 | a step keeps "the live snapshot is current or a reload is coming" if and only if it is not a failed reload with nothing behind it |
| `Watcher.LossIsReachable` | lblogd/src/content.rs:373-380 | a concrete run after which an old snapshot is live and only a further change can happen |
| `Watcher.NoChangeIsLost` | lblogd/src/watcher.rs:33-38 | over every run with successful reloads no change is lost, although the queue drops events when full |
| `Watcher.PublishedWasRead` | lblogd/src/content.rs:373-380 | over every run, what is live is what the sources were when some reload read them |
| `Watcher.QueueHolds` | lblogd/src/watcher.rs:33-38 | events queue up to 64 and are dropped beyond |
| `Watcher.Settles` | lblogd/src/content.rs:373-380 | once changes stop, every step brings the pipeline nearer to rest, it is never stuck before, and at rest the live snapshot is current |
| `Slug.Slugify` | lblogd/src/post.rs:309-325 | the loop yields the runs of letters and digits, lowercased, joined by single hyphens |
| `Slug.SlugSpells` | lblogd/src/post.rs:309-325 | for every string: its slug is its letters and digits in order, each capital as the letter at its place in the alphabet, with one hyphen exactly where something else stood between two of them |
| `Slug.SlugOfIsSlug` | lblogd/src/post.rs:309-325 | every output is empty or lowercase groups joined by single hyphens |
| `Slug.SlugFixesSlugs` | lblogd/src/post.rs:309-325 | a string is its own slug if and only if it is of that language |
| `Slug.SlugIsIdempotent` | lblogd/src/post.rs:309-325 | the slug of a slug is itself |
| `Slug.UsableNamesAreSlugs` | lblogd/src/site.rs:368-370 | usable names are exactly the non-empty strings of that language |
| `Site.LoadSite` | lblogd/src/site.rs:218-305 | fails with the first complaint, files before links, and otherwise places every page file exactly once: landing page, first link of its name, or pages in name order |
| `Site.PageComplaints` | lblogd/src/site.rs:227-257 | what is wrong with a page file, in the order it is looked for |
| `Site.LinkComplaints` | lblogd/src/site.rs:261-287 | what is wrong with a link, in the order it is looked for |
| `Site.NamesTaken` | lblogd/src/site.rs:55-72 | the names no page or link may have |
| `Site.LinkUrls` | lblogd/src/site.rs:377-382 | a link's target is something after `http://` or `https://` |
| `Site.LessIs` | lblogd/src/site.rs:259 | names are ordered by the first character in which they differ |
| `Site.SortPagesSorts` | lblogd/src/site.rs:259 | pages of different names end up in strict name order, none lost or added |
| `Site.LoadedNamesApart` | lblogd/src/site.rs:349-363 | in a site that loads, page and link names differ from each other, the reserved names, the landing page, a configured about page and every post slug, if and only if no two links share a name |
| `Serving.BuildPages` | lblogd/src/content.rs:386-440 | the map is filled write by write: index, landing page, pages, links, about, posts |
| `Serving.LastWriteWins` | lblogd/src/content.rs:386-440 | the render under a path is the last one written there |
| `Serving.RenderSurvives` | lblogd/src/content.rs:386-440 | with names apart, a render other than a post's keeps its path if and only if no post slug is its name |
| `Serving.RootPages` | lblogd/src/content.rs:386-431 | the paths under which the index, the landing page and the about page are served, as text |
| `Serving.PostSurvives` | lblogd/src/content.rs:432-437 | what is served under a post's slug is the last post of that slug, so a post keeps its page if and only if that last one is the same post |
| `Serving.PostTakesIndex` | lblogd/src/content.rs:386-440 | a site that loads, whose index or about page is served as a post |
| `Serving.PagesAndLinksSurvive` | lblogd/src/content.rs:386-440 | with names apart, every static page and every link is served as itself |
| `Serving.ServedIsAnswered` | lblogd/src/content.rs:201-212 | a request finds a page or a file if and only if its path is a served one |
| `Serving.LoadFiles` | lblogd/src/files.rs:221-277 | the file area holds exactly the directory's files with a usable name within the size limit, under their own names |
| `Serving.ServableNames` | lblogd/src/files.rs:100-111 | which names may be served: 1 to 255 bytes, no leading dot, no separator, no control character |
| `Serving.FilePaths` | lblogd/src/files.rs:114-116 | a file is asked for, and answered, under `/file/` and its name |
| `Serving.BlogNode.Start` | lblogd/src/node.rs:217-228 | handlers are registered for exactly the served paths |
| `Serving.BlogNode.ApplySnapshot` | lblogd/src/node.rs:358-374 | the new snapshot is live, and vanished paths are deregistered and new ones registered |
| `Serving.HandlersFollowContent` | lblogd/src/node.rs:622-643 | from a start, over every sequence of reloads, a path has a handler if and only if the current snapshot answers it |

## Left out

- CounterTally.CounterIsTally: for runs whose writes succeed, on days a record can name, with totals that stay `u64`s; what failed writes can do is `ViewNeverShrinks` and the lemmas before it.
- CounterTally.FileIsSavedTally: under the same conditions.
- CounterTally.KillLosesOnlyUnsaved: under the same conditions.
- CounterLives.CounterIsTallyOfLives: under the same conditions in every life.
- CounterReopen.FrozenIffNewerRecorded: for days a record can name whose totals have room for two more sessions; a day of any other year is never in a record, and totals past a `u64` are left out below.
- OutlineReader.TableRoundTrip: for counts and byte lengths that are `u32`s, which is what the reader reads; coordinates always are.
- Site.LoadSite: page files have different stems, as the files of one directory do; reading and parsing them is an outcome given per file.
- Watcher.NoChangeIsLost: a reload reads the sources as of one version; a directory that changes while it is being read is one of the two versions.
- Real files, `fsync`, locks and tokio: a write ends whole or after any number of characters, a rename is atomic, tasks interleave step by step. The file is a sequence of characters, after lossy decoding.
- CounterLoss.LossIsExact: under the same conditions, but for writes that fail with nothing written; a torn write spoils or saves a record by its cut, which is `SavedIsReadIffCutHeals`.
- Overflow of the counter's `u64` totals while running: they are natural numbers, and a total that is not a `u64` is a record that is not read.
- Errors of reading or creating the counter file at a start, and the directory it is created in.
- Signing, key derivation and the sizes allowed for an access code: any functions, and any size of at least one byte.
- The Mercator projection and the removal of repeated points before encoding; rings are given as points on the grid.
- Drawing, clipping and colours of the outline.
- Frames with a checksum; Reticulum uses the form without one.
- Rendering, MessagePack, Markdown, frontmatter and TOML; a render is named by the content it came from.
- Which file events are relevant to the watcher.
- The dump `just` prints, the ledger's syntax and the line numbers in findings; a graph and a ledger are given.
- `receiver_words` and `line_of` of the lexer.
- Small page responses, sent at once and not queued.
- The protocol core beyond framing and masking, the command line, configuration and the remaining scripts.
