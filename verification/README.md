# Verified models of vSwarm's algorithmic cores

vSwarm is a suite of serverless benchmarks. Most of it connects services; the parts that compute
something hard are modelled here in Dafny, and what they are for is proved for every input, every run
or every interleaving.

| files | what they model |
|---|---|
| `SquadContext`, `SquadAnswers`, `SquadWindows`, `SquadFeatures` | BERT pre-processing: words and offsets of a paragraph, annotated answers, subtokens with maps in both directions, overlapping windows, the one window in which a token is scored, packed and padded model inputs, answer positions |
| `SquadProjection`, `SquadNBest`, `SquadReport` | BERT post-processing: candidates from the n best logits, the n-best list and what its entries are, projecting a normalised answer back onto the original text |
| `TraceForest`, `TraceHeap` | The trace plotter: a flat span list linked in place into a heap of children, walked recursively, parsed twice. `TraceForest` is the link structure as values, `TraceHeap` the objects |
| `MapReduce`, `MapReduceJob`, `MapReduceDriver` | Mapper, reducer and driver of the MapReduce benchmark, refining one sequential group-by-sum |
| `Dates`, `ReservationLog`, `ReservationCache`, `ReservationServer` | The days that can be written as dates; the hotel reservation service: a log, a write-through cache that may lose entries at any lookup, and the two requests |
| `FanIn`, `Gather`, `Deploy`, `Download` | Goroutine protocols as transition systems: a schedule is any sequence of enabled steps, and the theorems are about all schedules |
| `Currency`, `Halving` | Currency conversion with carry and rounding, and the successive-halving tuner |
| `StableSort`, `Maxima`, `Sums`, `Bits`, `Text`, `Options` | What several of these share: Python's stable reverse sort, maxima of sets, sums over workers, masks, join/split/decimal numerals |

`dafny verify dfyconfig.toml` checks everything.

## Reading the models

- Code that works step by step is a method with loops, proved against a specification. Where the
  specification is a function, lemmas prove what the source promises about that function.
- Libraries the source calls are parameters: the tokenizer and vocabulary, the two text clean-ups of
  the BERT post-processing, the string hash, the number parser, the way a day is written as a date,
  training scores, and the outcome of each remote call. Theorems hold for every choice of them. The way
  a day is written has to be a calendar (`Dates.IsCalendar`); Gregorian dates are one.
- Context scores are scaled by 100 (the source adds 0.01 times the length). Logits, MapReduce values
  and training scores are exact integers, and currency amounts exact real numbers.
- A map or set that the source iterates over is walked in an arbitrary order, unless Python's
  insertion order is what the result depends on; such results are lists here.
- Where the source's behaviour does not meet what it is for, the exact condition is proved: when the
  window loop ends (`SquadWindows.TerminatesIff`), when comma-joined keys come back
  (`MapReduceDriver.JoinedKeysComeBack`), when the carry keeps an amount
  (`Currency.CarryPreservesIff`), when a caller can wait forever (`Gather.StuckIffNothingStarts`,
  `Deploy.StuckIffNoConcurrency`), and what the reservation cache may lose (below).

### The reservation query

The two queries after a cache miss filter on the fields `inDate` and `outDate`
(`benchmarks/hotel-app/reservation/server.go:144` and `:276`), but rows are stored under `indate` and
`outdate` (`:339-340`). The model has both namings. Under `AS_STORED`, the query means this hotel and
this night, and everything holds from any log with any losses. Under `AS_WRITTEN` the query finds
nothing, so the server is right only as long as the cache knows every booking. That is made exact:

- it is right at the start if and only if nothing is booked (`EmptyCacheIsRightIff`);
- it stays right over every run in which the cache loses capacities and zero counts only
  (`CapacitiesMayBeLost`, `Run`), and one loss keeps it right if and only if it is of that kind
  (`LossKeepsRightAsWrittenIff`);
- being right is the same as answering every request rightly (`AnswersRightIff`);
- the loss of any positive count can be followed by an overbooking: `Overbook` is the whole run.

### The other points where the code decides

- Trace ids may repeat and parents may form cycles. A trace is reported only if its id
  points to it and its parent id is unknown; cycles hang below no reported trace.
- A mapper line without a readable fourth field still makes its key known, with amount 0 if no other
  line has one; the result tables contain such keys.
- A stay without a night is accepted without any check and inserts nothing; `CheckAvailability` does
  not list its hotels.
- `DeepestLeaf` takes the first of several deepest children, `GetHTTPStatusCode` the largest code.

## Model

| member | source | states |
|---|---|---|
| SquadContext.WhitespaceCodes | benchmarks/bert/python/create_squad_data.py:100-103 | Whitespace is exactly the code points 9, 10, 13, 32 and 0x202F |
| SquadContext.ScanContext | benchmarks/bert/python/create_squad_data.py:108-121 | The words are exactly the maximal non-whitespace runs of the paragraph in order, and there is one offset per character: the index of the last word that begins no later than that character |
| SquadContext.EveryRunIsAWord | benchmarks/bert/python/create_squad_data.py:112-121 | No maximal run is missed |
| SquadContext.CharacterInItsWord | benchmarks/bert/python/create_squad_data.py:112-121 | Every non-whitespace character is, at its place, a character of the word that its offset names |
| SquadContext.WordIndexMonotone | benchmarks/bert/python/create_squad_data.py:121 | Offsets never decrease: the words begun by one character are a prefix of those begun by a later one |
| SquadContext.AnswerWithinWords | benchmarks/bert/python/create_squad_data.py:138-144 | An annotated answer whose ends are not whitespace lies between the start of the word its first offset names and the end of the word its last offset names |
| SquadAnswers.IndexErrorIff | benchmarks/bert/python/create_squad_data.py:140-144 | Reading an annotation raises an error exactly if its first or last offset is no index of the paragraph, counted from either end |
| SquadAnswers.KeptIffFound | benchmarks/bert/python/create_squad_data.py:142-158 | An annotation within the paragraph is kept, with the words of its first and last character, exactly if its cleaned text occurs in the text of these words; else it is dropped |
| SquadAnswers.SliceIs | benchmarks/bert/python/create_squad_data.py:151-152 | Slices are those of Python: bounds within the list as they are, others moved inside |
| SquadAnswers.KeptInRange | benchmarks/bert/python/create_squad_data.py:142-158 | Whatever the annotation, both ends of an answer that is kept are words of the document or stand before the first word |
| SquadAnswers.SquashWords | benchmarks/bert/python/create_squad_data.py:151-152 | Some words joined by single spaces are what their stretch of the paragraph becomes when every run of whitespace is collapsed |
| SquadAnswers.QuotedAnswerIsKept | benchmarks/bert/python/create_squad_data.py:138-158 | The check drops no answer that quotes its paragraph: if the text is there at its offset, is not framed by whitespace and is split into its words, the answer is kept, from the word of its first character to that of its last |
| SquadWindows.DocSpans | benchmarks/bert/python/create_squad_data.py:295-304 | For every setting for which the loop ends: windows start at 0, leave no gap even if the stride exceeds the window, have lengths from 1 to the maximum, advance by the smaller of window and stride, all but the last are full, and only the last reaches the last token |
| SquadWindows.TerminatesIff | benchmarks/bert/python/create_squad_data.py:297-304 | The loop ends if and only if the document is empty, or the window is at least 1 and the document fits in one window or the stride is at least 1 |
| SquadWindows.CheckIsMaxContext | benchmarks/bert/python/create_squad_data.py:176-210 | Yes exactly for the earliest of the windows that contain the token and maximise the smaller side plus a hundredth of the length |
| SquadWindows.MaxContextMeans | benchmarks/bert/python/create_squad_data.py:203-208 | Maximum context in terms of the real score of the source, the smaller of left and right context plus 0.01 times the length: no window that contains the token scores more, and no earlier one as much |
| SquadWindows.LargerSideWins | benchmarks/bert/python/create_squad_data.py:203-208 | Of windows of the same length the one with the larger smaller side wins, and the earlier of two equal ones |
| SquadWindows.ExactlyOneMaxContext | benchmarks/bert/python/create_squad_data.py:195-210 | Over the generated windows, each document token has its maximum context in one window and in no second one |
| SquadFeatures.Tokenize | benchmarks/bert/python/create_squad_data.py:262-270 | Each word owns one contiguous stretch of the subtokens, equal to its own tokenization, and each subtoken lies in the stretch of the word it is mapped to: the two index maps are inverse |
| SquadFeatures.ImproveAnswerSpan | benchmarks/bert/python/create_squad_data.py:212-246 | If some stretch within the answer's subtokens spells the tokenized answer, the result is the earliest start of such a stretch with the latest end for it; otherwise the input span comes back |
| SquadFeatures.KeptIsAnswerable | benchmarks/bert/python/create_squad_data.py:142-158 | Every answer that is kept when the paragraph is read can be converted, exactly unless the paragraph has no word |
| SquadFeatures.TokensOfWords | benchmarks/bert/python/create_squad_data.py:277-282 | For an answer on words of the document the look-ups give the first subtoken of its first word and the last of its last |
| SquadFeatures.AnswerSpan | benchmarks/bert/python/create_squad_data.py:277-285 | The improved span, searched between the subtokens that the look-ups give, whichever way negative indices wrap around |
| SquadFeatures.PackTokens | benchmarks/bert/python/create_squad_data.py:307-329 | The model input is [CLS] query [SEP] window [SEP]; both maps are defined on exactly the window's positions, with the word of that subtoken and its maximum-context flag; segment 1 begins after the first [SEP] |
| SquadFeatures.Pad | benchmarks/bert/python/create_squad_data.py:331-345 | All three inputs have the maximum length, so the length assertions hold; ids are zero-padded and the mask is 1 exactly on real tokens |
| SquadFeatures.BuildFeature | benchmarks/bert/python/create_squad_data.py:306-408 | The feature is faithful to its window, and its answer positions cut out exactly the chosen answer subtokens if the window has all of them, else are both 0; neither is set outside training |
| SquadFeatures.ConvertExample | benchmarks/bert/python/create_squad_data.py:256-413 | Raises an error exactly if a training example lacks an answer or a look-up is out of range; otherwise, for every example for which the window loop ends: one faithful feature for each window, consecutive ids, and answer positions as the improved span says |
| SquadFeatures.QuestionInEveryFeature | benchmarks/bert/python/create_squad_data.py:257-317 | Every model input begins with [CLS], the question's tokens up to the allowed number, and [SEP], in segment 0; all inputs but an example's last are full; all carry its impossible mark |
| SquadFeatures.InputsOfFeature | benchmarks/bert/python/create_squad_data.py:326-345 | At every place: the token's id with mask 1 and the segment of its part, and zeros behind the tokens |
| SquadFeatures.PositionsSpellAnswer | benchmarks/bert/python/create_squad_data.py:347-364 | In training, if some stretch of its words' subtokens spells the answer, the positions in every feature cut out tokens that spell it, or are both 0 because the window does not have them all |
| SquadFeatures.EachSubtokenScoredOnce | benchmarks/bert/python/create_squad_data.py:319-326 | Over all features of one example, every subtoken of the document is flagged for scoring at exactly one position of one feature, and that position holds the subtoken and maps to its word |
| SquadFeatures.MappedPositionHoldsSubtoken | benchmarks/bert/python/create_squad_data.py:319-326 | Every mapped position holds a subtoken of the very word it is mapped to |
| SquadFeatures.ConvertExamples | benchmarks/bert/python/create_squad_data.py:254-413 | All examples are converted in order, ids continuing from one to the next, exactly if none raises an error |
| SquadFeatures.UniqueIds | benchmarks/bert/python/create_squad_data.py:254-413 | Feature i of the whole data set has id 1000000000 + i, so ids are unique |
| SquadProjection.StripSpaces | benchmarks/bert/python/accuracy-squad.py:103-112 | The text without spaces, and for each of its characters the position in the original, strictly increasing |
| SquadProjection.InvertPositions | benchmarks/bert/python/accuracy-squad.py:135-137 | Defined exactly on the characters that are not spaces, with the number of such characters before each |
| SquadProjection.PositionInverse | benchmarks/bert/python/accuracy-squad.py:103-137 | Position map and non-space count undo each other |
| SquadProjection.OffsetOf | benchmarks/bert/python/accuracy-squad.py:103-137 | A position that holds no space is found again from the number of such characters before it, so the two maps also undo each other in that order |
| SquadProjection.CutNonSpace | benchmarks/bert/python/accuracy-squad.py:157 | Cutting from one non-space character to another cuts the corresponding stretch of the text without spaces |
| SquadProjection.FinalText | benchmarks/bert/python/accuracy-squad.py:122-158 | If the alignment works, the result is a contiguous piece of the original that begins and ends with no space, stands after as many non-space characters as the match does in the normalised text, and has as many as the prediction; otherwise it is the original. The alignment works exactly if the prediction occurs, is not empty, neither begins nor ends with a space, and both texts have equally many non-space characters |
| SquadProjection.FinalTextIs | benchmarks/bert/python/accuracy-squad.py:122-155 | The projection is made exactly if the prediction occurs in the normalised text, begins and ends with no space, and both texts have equally many other characters |
| SquadProjection.ProjectedUnique | benchmarks/bert/python/accuracy-squad.py:157 | Only one piece of the original text meets the description of the projection |
| SquadProjection.GetFinalText | benchmarks/bert/python/accuracy-squad.py:75-158 | The code with its maps, lookups and early returns projects exactly under these conditions and returns the original text otherwise |
| SquadProjection.ProjectionNormalisesToPrediction | benchmarks/bert/python/accuracy-squad.py:78-101 | If normalising changes the non-space characters one by one, then the projected answer normalises to the prediction, spaces aside |
| StableSort.OrderUnique | benchmarks/bert/python/accuracy-squad.py:163-164 | Python's reverse sort with equal keys in arrival order has only one result |
| SquadNBest.GetBestIndexes | benchmarks/bert/python/accuracy-squad.py:161-171 | The n largest logits, largest first, earlier indices first among equals; every index left out comes after every one returned |
| SquadNBest.CollectCandidates | benchmarks/bert/python/accuracy-squad.py:230-267 | The candidates are exactly the spans of scored features with both ends among the n best indices, in the mapped document part, starting where the window has maximum context, ordered, and not too long; each is met once, in loop order |
| SquadNBest.CandidateIsDocumentSpan | benchmarks/bert/python/accuracy-squad.py:246-260 | In features converted from the example, a candidate is a stretch of document subtokens no longer than allowed, its start has its maximum context in that window, and it lies in the words it is read back from |
| SquadNBest.SelectNBest | benchmarks/bert/python/accuracy-squad.py:277-308 | At most n entries, made from the first occurrences of each text in sorted order; what the texts are is stated below |
| SquadNBest.WritePredictions | benchmarks/bert/python/accuracy-squad.py:218-316 | Between 1 and n entries; without candidates the stand-in, else the n-best list: texts pairwise distinct, in rank order, each text by its best candidate, and no candidate is missing unless n better texts are there |
| SquadNBest.NBestUnique | benchmarks/bert/python/accuracy-squad.py:269-308 | That description determines the list: whoever selects by it selects the same entries |
| SquadNBest.ReportUnique | benchmarks/bert/python/accuracy-squad.py:218-316 | The example and the logits alone determine the report entry for entry, ties included |
| SquadReport.EntriesReadBack | benchmarks/bert/python/accuracy-squad.py:282-308 | Every reported answer has the two logits of some candidate, each its own, and its text: the candidate's tokens, joined and detokenized, projected onto the words they are mapped to, or these words |
| SquadReport.NothingToReport | benchmarks/bert/python/accuracy-squad.py:312-314 | Without any candidate the stand-in is all that is reported |
| SquadReport.ReportDescends | benchmarks/bert/python/accuracy-squad.py:269-302 | No text is reported twice and the sums of the two logits do not increase |
| SquadReport.NonePassedOver | benchmarks/bert/python/accuracy-squad.py:277-308 | No candidate is passed over: its text is reported with a sum that is no less, or n sums that are no less are reported |
| SquadReport.BestIsReported | benchmarks/bert/python/accuracy-squad.py:337-339 | The sum of the answer that counts is at least that of every candidate |
| SquadReport.CandidateIff | benchmarks/bert/python/accuracy-squad.py:230-260 | For converted features exactly these spans are candidates: ends among the n best, in the document part of the window, in order, not too long, the start with maximum context |
| SquadReport.CandidateReadsWords | benchmarks/bert/python/accuracy-squad.py:283-286 | For converted features all tokens of a candidate are subtokens of the words that it is read back from |
| SquadReport.AnswersReadWords | benchmarks/bert/python/accuracy-squad.py:282-308 | So every answer reported for a converted example is read from words of its document |
| TraceForest.ParentIff | tools/trace-plotter/plot.go:38-48 | A trace hangs under the last trace whose id is its parent id, and under none if there is no such trace |
| TraceForest.RootIff | tools/trace-plotter/plot.go:50-52 | A trace is a root exactly if it is the last with its id and no trace has its parent id |
| TraceForest.PathNoRepeat | tools/trace-plotter/plot.go:44-58 | No trace occurs twice on a path of child links from a trace without parent, whatever cycles, self-parents or repeated ids the list has |
| TraceForest.PathBounded | tools/trace-plotter/model.go:90-102 | Such a path is no longer than the list, so the recursion from a root ends |
| TraceForest.PathUnique | tools/trace-plotter/plot.go:44-58 | Everything reachable from parentless traces is reachable by one path only: a forest |
| TraceForest.DeepestMeans | tools/trace-plotter/model.go:94-101 | No path below is longer, and one that is as long turns to a later child where they part |
| TraceForest.DeepestIsLeaf | tools/trace-plotter/model.go:90-94 | The longest, earliest path below a trace ends in a trace without children |
| TraceHeap.Trace.DeepestLeaf | tools/trace-plotter/model.go:90-102 | On the linked heap, from anything reachable from a root: the end of the longest path below, the first in child order, and its length, however often the children were linked |
| TraceHeap.Trace.GetHTTPStatusCode | tools/trace-plotter/model.go:104-133 | The code as specified on the forest, however often the children were linked; a code below counts only if no closer one was found |
| TraceForest.CodeIsExposed | tools/trace-plotter/model.go:104-133 | A code is found exactly if some descendant carries a readable one below untagged traces only, and it is such a descendant's code |
| TraceForest.CodeIsLargest | tools/trace-plotter/model.go:104-133 | Exactly which code is found: the largest among the descendants that carry a readable one below untagged traces only and that no closer child with a readable code hides; none exactly if there are none |
| TraceHeap.Largest | tools/trace-plotter/model.go:131-132 | Sorting and taking the end gives the maximum |
| TraceHeap.IndexById | tools/trace-plotter/plot.go:38-42 | Every id points to the last trace that has it, no other id is known |
| TraceHeap.LinkChildren | tools/trace-plotter/plot.go:44-48 | One more pass appends to every child list exactly the traces whose parent id names that trace, in list order |
| TraceHeap.CollectRoots | tools/trace-plotter/plot.go:50-58 | Whatever order the map is walked in: reports each trace known by its id and without parent once, sets its system duration to its own less its deepest leaf's, and touches no other |
| TraceHeap.SortByLatency | tools/trace-plotter/plot.go:60-69 | Same traces, in ascending latency |
| TraceHeap.ParseTraces | tools/trace-plotter/plot.go:36-85 | All of this together: every root's system duration is its own less that of the end of its deepest path, the list ascends by the chosen latency, and the plotted numbers are these latencies, 10^-12 for a system duration that is not positive, and 0 for any other latency type |
| TraceHeap.ParseTwice | tools/trace-plotter/main.go:57-82 | Parsing the same traces again leaves every child list with the children in order and then all of them again, but reports the same roots with the same system durations; both charts ascend by their own latency and have its numbers |
| MapReduce.MapFunction | benchmarks/map-reduce/mapper/mapper.py:51-70 | Table r has exactly the keys of bucket r that occur in the inputs (without first and last lines), also those with unreadable amounts only, each with the sum of its readable amounts |
| MapReduce.EveryLineHasFields | benchmarks/map-reduce/mapper/mapper.py:57 | Every line is some comma-free fields joined by commas |
| MapReduce.FieldsOfLine | benchmarks/map-reduce/mapper/mapper.py:57-61 | The key of such a line is its first field, its amount what its fourth field reads as, and none if there is no fourth |
| MapReduce.LineCounts | benchmarks/map-reduce/mapper/mapper.py:56-63 | One more such line adds its amount, if readable, to the total of its first field and to no other, and makes that field a key |
| MapReduce.LinesOfPart | benchmarks/map-reduce/mapper/mapper.py:53-54 | The lines of a part are those between its first and its last, and a part of one line has none |
| MapReduce.BucketIsMod | benchmarks/map-reduce/mapper/mapper.py:69 | For powers of two a key goes to its hash modulo the number of reducers |
| MapReduce.MapLine | benchmarks/map-reduce/mapper/mapper.py:56-63 | A table that is the group-by-sum of some lines becomes the group-by-sum with one line more, also if its fourth field is missing or unreadable |
| MapReduce.OneMoreLine | benchmarks/map-reduce/mapper/mapper.py:59-61 | Making the key known with zero and adding a readable amount is what one more line means for the group-by-sum |
| MapReduce.Shuffle | benchmarks/map-reduce/mapper/mapper.py:65-70 | Whatever order the keys are walked in, each is in exactly the table of its bucket, with its value |
| MapReduce.ReduceFunction | benchmarks/map-reduce/reducer/reducer.py:49-62 | The key-wise sum of all tables, with exactly their keys |
| Bits.PowerOfTwoTest | benchmarks/map-reduce/driver/driver.py:44 | n & (n - 1) == 0 with n not 0 accepts exactly the powers of two |
| Bits.MaskIsMod | benchmarks/map-reduce/mapper/mapper.py:69 | For these, the masked hash is the Euclidean remainder, for negative hashes too |
| MapReduceJob.MergesMakeJob | benchmarks/map-reduce/reducer/reducer.py:53-60 | Merged by reducers, the mappers' tables give the result of the job: reducer r has exactly the keys that some mapper hashes to it, with the sum of what those mappers have |
| MapReduceJob.SentAltogether | benchmarks/map-reduce/mapper/mapper.py:68-70 | Whatever hash each mapper uses, what is sent to all reducers for a key is its total over all lines of all parts |
| MapReduceJob.Conserved | benchmarks/map-reduce/reducer/reducer.py:53-60 | Over all reducers every key has its total over all lines of all parts, even if every mapper has its own hash |
| MapReduceJob.OnlyInItsBucket | benchmarks/map-reduce/mapper/mapper.py:68-70 | With one hash a key is at the reducer of its bucket, for powers of two its hash modulo their number, if some line has it, and at no other |
| MapReduceJob.SharedHashJob | benchmarks/map-reduce/reducer/reducer.py:53-60 | With one hash the reducers share no key, and their tables together are the sequential group-by-sum over all lines of all parts |
| MapReduceDriver.KeyExample | benchmarks/map-reduce/mapper/mapper.py:81-82 | What a key looks like |
| Text.DecimalValue | benchmarks/map-reduce/mapper/mapper.py:81-82 | The numbers in keys are decimal numerals without leading zeros |
| MapReduceDriver.KeysDistinct | benchmarks/map-reduce/mapper/mapper.py:81-82 | Two tables of one job never have the same storage key |
| MapReduceDriver.SaveShuffle | benchmarks/map-reduce/mapper/mapper.py:79-93 | A mapper's tables are under their keys afterwards and other mappers' tables are still where they were |
| MapReduceDriver.PrepareReduceKeys | benchmarks/map-reduce/driver/main.py:116-126 | The list variant transposes the keys: entry i of list r is entry r of list i |
| MapReduceDriver.PrepareReduceKeysLambda | benchmarks/map-reduce/driver/main.py:173-187 | The other variant joins each transposed list with commas, none before the first non-empty key |
| MapReduceDriver.JoinedIsJoin | benchmarks/map-reduce/driver/main.py:181-184 | That string is Python's comma join of the keys without the empty ones at the front |
| MapReduceDriver.JoinedKeysComeBack | benchmarks/map-reduce/reducer/main.py:98 | Splitting gives the keys back if and only if no key has a comma and the first is not empty or the only one |
| Text.SplitJoin | benchmarks/map-reduce/reducer/main.py:98 | Splitting at a separator undoes joining with it when no piece has it |
| MapReduceDriver.TransportKeys | benchmarks/map-reduce/driver/driver.py:63-76 | On either way every reducer gets its keys in mapper order |
| MapReduceDriver.RunMapper | benchmarks/map-reduce/mapper/mapper.py:51-95 | Afterwards the bucket sums of its inputs are in storage under the mapper's keys, which it answers with, and what other mappers left is still there |
| MapReduceDriver.RunMappers | benchmarks/map-reduce/driver/driver.py:47-63 | After all mappers have run, the bucket sums of every part are in storage under the keys that are handed on |
| MapReduceDriver.RunReducers | benchmarks/map-reduce/driver/driver.py:67-81 | Each reducer merges the tables that its keys name |
| MapReduceDriver.DriveFunction | benchmarks/map-reduce/driver/driver.py:34-83 | Runs exactly for 2 to 2215 mappers and fewer reducers, a power of two; mappers, storage, either key transport and reducers together produce the result of the job, entry for entry |
| Dates.NumberOfDate | benchmarks/hotel-app/reservation/server.go:128 | Stepping from the first of January of year 0 to the next date, day by day, and counting days by leap years and month lengths undo each other |
| Dates.FourDigitYears | benchmarks/hotel-app/reservation/server.go:112-118 | Exactly 3652425 days have a date with a year of four digits, as the parser demands |
| Dates.WrittenIs | benchmarks/hotel-app/reservation/server.go:121 | A date is written as four digits of its year, two of its month and two of its day, with hyphens between |
| Dates.GregorianIsCalendar | benchmarks/hotel-app/reservation/server.go:121-129 | Gregorian dates written as year, month and day write different days differently, in ten characters that end in a digit: what is asked of a calendar below holds of the one the source uses |
| ReservationLog.QueryFinds | benchmarks/hotel-app/reservation/server.go:143-151 | The miss query with the stored field names sums exactly the bookings of that hotel and night; with the field names as written it finds nothing |
| ReservationLog.RequestEffect | benchmarks/hotel-app/reservation/server.go:203-222 | An accepted request adds its rooms to each night of [in, out) at its hotel and to nothing else; any other changes no night |
| ReservationLog.InsertedRows | benchmarks/hotel-app/reservation/server.go:203-222 | An accepted request leaves the old log followed by one row for each night, first night first, with the hotel, the customer, the two dates and the rooms; any other leaves the log |
| ReservationLog.AnswerIff | benchmarks/hotel-app/reservation/server.go:119-191 | A stay in a known hotel is accepted exactly if with its rows in the log no night of it has more rooms booked than there are, else refused; one without nights is accepted, an unknown or missing hotel panics |
| ReservationLog.NeverOverbooked | benchmarks/hotel-app/reservation/server.go:188-191 | After any run of requests no night of any hotel exceeds its capacity, if none did before |
| ReservationLog.ListedIffAcceptable | benchmarks/hotel-app/reservation/server.go:246-331 | A hotel is listed exactly if it was asked for, the stay has a night, and a reservation for it in the same state would be accepted |
| ReservationLog.ListedPlaces | benchmarks/hotel-app/reservation/server.go:246-331 | The list holds these hotels in the order of the request, each as often as it was asked for |
| ReservationCache.KeysAre | benchmarks/hotel-app/reservation/server.go:132-162 | A count key is the hotel and the day that ends the night, twice, joined by underscores; a capacity key the hotel and cap |
| ReservationCache.KeysDistinct | benchmarks/hotel-app/reservation/server.go:132-162 | Count keys of different hotels or nights differ and none is a capacity key, although hotel ids may be any strings |
| ReservationCache.AnswersRightIff | benchmarks/hotel-app/reservation/server.go:125-193 | The server answers every request as the log demands if and only if it gets what is booked for every night of every hotel in the table |
| ReservationCache.StayShiftsLookups | benchmarks/hotel-app/reservation/server.go:195-222 | Writing the counts of a stay and inserting its rows add its rooms to what the server gets for its nights and change nothing else that it gets, under either naming and from any cache |
| ReservationCache.ShiftKeepsRight | benchmarks/hotel-app/reservation/server.go:195-222 | So a server that gets what is booked still does after any request |
| ReservationCache.LossUnnoticed | benchmarks/hotel-app/reservation/server.go:140-153 | With the stored field names, any loss from a right cache makes no difference to what the server gets |
| ReservationCache.ZeroLossUnnoticed | benchmarks/hotel-app/reservation/server.go:144 | With the names as written, a loss that spares all counts but zeroes makes no difference, from any cache |
| ReservationCache.CapacitiesMayBeLost | benchmarks/hotel-app/reservation/server.go:162 | A cache that loses only capacities and zero counts is such a cache: no capacity key is taken for a count |
| ReservationCache.LossKeepsRightAsWrittenIff | benchmarks/hotel-app/reservation/server.go:144 | With the names as written, a right cache stays right if and only if no count other than zero is lost |
| ReservationCache.EmptyCacheIsRightIff | benchmarks/hotel-app/reservation/server.go:144 | With an empty cache the server gets what is booked if and only if it queries by the stored names or nothing is booked |
| ReservationServer.Memcached.Get | benchmarks/hotel-app/reservation/server.go:133 | The answer is what is left; only entries that the policy allows may vanish, none changes |
| ReservationServer.Server.constructor | benchmarks/hotel-app/reservation/server.go:96-110 | From any log and an empty cache; under the names as written, with a cache that loses no count but zeroes, the server is right exactly if nothing is booked yet |
| ReservationServer.Server.Count | benchmarks/hotel-app/reservation/server.go:131-158 | The cached or queried count, which is what is booked if the server is right; losses make no difference |
| ReservationServer.Server.Capacity | benchmarks/hotel-app/reservation/server.go:160-186 | The table's capacity, whether cached or queried; nothing for a hotel that is not in the table |
| ReservationServer.Server.CheckStay | benchmarks/hotel-app/reservation/server.go:123-193 | The check by what the server gets; nothing of that changes, and the counts to write are those with the stay's rooms |
| ReservationServer.Server.WriteCounts | benchmarks/hotel-app/reservation/server.go:195-201 | All counts are in the cache and nothing else changed, in whatever order the map is walked |
| ReservationServer.Server.InsertStay | benchmarks/hotel-app/reservation/server.go:203-222 | One row for each night is appended, with hotel, customer, both dates and rooms |
| ReservationServer.Server.MakeReservation | benchmarks/hotel-app/reservation/server.go:96-227 | Replies by what the server gets and shifts that with the log, whatever was cached or lost; a server that is right replies and changes the log as the log alone prescribes and stays right. Acceptance appends one row for each night, field by field; nothing else changes the log |
| ReservationServer.Server.HasRoom | benchmarks/hotel-app/reservation/server.go:247-330 | One hotel is found available exactly if it is for the log; panics exactly if a night needs a capacity that is unknown |
| ReservationServer.Server.CheckAvailability | benchmarks/hotel-app/reservation/server.go:230-334 | The available hotels in order, the log unchanged, every cached count and capacity right |
| ReservationServer.Run | benchmarks/hotel-app/reservation/server.go:96-334 | Every run of both requests, with any losses that the policy allows at any lookup, ends with the log that its reservations alone give, within capacity, and a right cache |
| ReservationServer.Overbook | benchmarks/hotel-app/reservation/server.go:144 | With the names as written and an empty log, a whole run: some rooms are reserved for a night, the count is lost, as many rooms as there are in all are reserved and accepted, and the night is overbooked by the first reservation; for every hotel, night, capacity and first reservation |
| FanIn.AlwaysInv | benchmarks/chained-function-serving/driver/driver.go:185-217 | After every schedule, what was sent is in a channel or was received, value by value |
| FanIn.SendsNeverBlock | benchmarks/chained-function-serving/driver/driver.go:187-205 | No goroutine ever waits to send, also after the collector gave up |
| FanIn.NilPromisesCapability | benchmarks/chained-function-serving/driver/driver.go:202-214 | When the collector has taken a nil and finds no capability, some goroutine is about to send one |
| FanIn.NeverStuck | benchmarks/chained-function-serving/driver/driver.go:207-217 | Until the collector has finished, some step can be taken |
| FanIn.SchedulesAreShort | benchmarks/chained-function-serving/driver/driver.go:187-217 | No schedule has more than 6n + 2 steps, so with the row above every maximal one finishes |
| FanIn.ReducedIsPermutation | benchmarks/chained-function-serving/driver/driver.go:207-217 | The reduction starts only if all producers succeeded, on a permutation of their capabilities |
| FanIn.FailedHasFailure | benchmarks/chained-function-serving/driver/driver.go:209-213 | The collector gives up only if some producer failed |
| Gather.AnswerIsRight | benchmarks/chained-function-serving/producer/uBenchProd.go:109-116 | The caller answers yes exactly if every call succeeded, in every schedule |
| Gather.SendsNeverBlock | benchmarks/chained-function-serving/producer/uBenchProd.go:119-170 | No goroutine ever waits to send, also after the caller returned early |
| Gather.StuckIffNothingStarts | benchmarks/chained-function-serving/consumer/uBenchCons.go:42-75 | Some schedule leaves the caller waiting forever if and only if there are items but the transfer type starts no goroutine |
| Gather.SchedulesAreShort | benchmarks/chained-function-serving/producer/uBenchProd.go:70-117 | No schedule has more than 4n + 2 steps |
| Deploy.CopiesAre | tools/deployer/client.go:95-101 | Copy i of a function is named after it and numbered i, for as many as its count says |
| Deploy.JobsAre | tools/deployer/client.go:94-111 | One deployment for each copy of each function, in order |
| Deploy.AlwaysInv | tools/deployer/client.go:90-118 | Every token in the channel belongs to a deployment in flight or to the caller; one url for each started deployment, in order |
| Deploy.ConcurrencyBounded | tools/deployer/client.go:92-109 | Never more deployments in flight than the concurrency |
| Deploy.ReturnsWhenAllDone | tools/deployer/client.go:113-117 | The caller returns only when every deployment has ended, with all urls in order |
| Deploy.GiveBackNeverBlocks | tools/deployer/client.go:106 | A finished deployment can always give its token back |
| Deploy.StuckIffNoConcurrency | tools/deployer/client.go:92-115 | The caller can get stuck if and only if the concurrency is 0 and there is something to deploy |
| Deploy.SchedulesAreShort | tools/deployer/client.go:94-115 | No schedule has more than four steps for each deployment, one for each token, and two |
| Download.AlwaysInv | tools/trace-plotter/main.go:117-140 | One holder of the mutex at most, a reader of the index sees its current value, and every index below the counter was claimed once |
| Download.MutualExclusion | tools/trace-plotter/main.go:119-122 | In no schedule are two goroutines between Lock and Unlock together |
| Download.ClaimedOnce | tools/trace-plotter/main.go:119-139 | At any moment a trace below the counter is claimed by one goroutine or finished, never both or twice; one that is not below it is neither |
| Download.NeverTwice | tools/trace-plotter/main.go:119-139 | In no schedule is a trace claimed by two goroutines, claimed after it was attempted, or attempted twice |
| Download.BackWhenAllAttempted | tools/trace-plotter/main.go:103-115 | When the main goroutine is back, all others have stopped, every trace was attempted exactly once, and the index is the number of traces plus goroutines |
| Download.NeverStuck | tools/trace-plotter/main.go:110-139 | Until then some step can be taken |
| Download.SchedulesAreShort | tools/trace-plotter/main.go:110-139 | No schedule has more than six steps for each trace, nine for each goroutine, and one |
| Currency.Amount.Carry | benchmarks/online-shop/currencyservice/server.js:101-107 | In place: fraction of the units moved to the nanos, whole units of the nanos moved back |
| Currency.CarryPreservesIff | benchmarks/online-shop/currencyservice/server.js:101-107 | The carry keeps units * 10^9 + nanos if and only if neither the units nor the moved nanos are negative with a fraction |
| Currency.CarryLosesNegative | benchmarks/online-shop/currencyservice/server.js:103-105 | Minus one and a half units become minus three and a half |
| Currency.CarryNormalises | benchmarks/online-shop/currencyservice/server.js:101-107 | From non-negative fields: the total is kept, units are whole, nanos are in [0, 10^9) |
| Currency.EurosWithinHalf | benchmarks/online-shop/currencyservice/server.js:129-134 | The intermediate amount is within half a nano of the exact one, also when rounding fills a whole unit |
| Currency.Convert | benchmarks/online-shop/currencyservice/server.js:122-148 | The method with its two carries, rounding and cutting in place computes the amount that the next row is about |
| Currency.ConvertWithinBounds | benchmarks/online-shop/currencyservice/server.js:127-143 | For non-negative amounts and positive rates the result is whole and normalised, and its error in nanos is in (-rate/2 - 1, rate/2] of the target rate |
| Currency.ConvertError | benchmarks/online-shop/currencyservice/server.js:127-143 | The same in numbers: 10^9 times units plus nanos of the result against the exact amount at the two rates |
| Currency.ConvertBoundReached | benchmarks/online-shop/currencyservice/server.js:127-143 | The upper bound is reached |
| Halving.TrainRound | benchmarks/tuning-halving/driver/main.py:190-204 | The better half is kept, best first, and no dropped model outscores a kept one |
| Halving.Tune | benchmarks/tuning-halving/driver/main.py:186-212 | Ends with exactly one of the original configurations; if scores depend on the configuration only, with the earliest one of maximum score. For any scores it is the outcome of rounds that each keep the better half by the scores at these places and this size, and trainings are the models of all rounds and the last |
| Halving.RoundsAreLog2 | benchmarks/tuning-halving/driver/main.py:186-204 | The number of rounds is the binary logarithm of the number of configurations, rounded down |
| Halving.TrainingsBounded | benchmarks/tuning-halving/driver/main.py:186-212 | At most 2n - 1 trainings in all |
| Halving.BestIsKeptFirst | benchmarks/tuning-halving/driver/main.py:202-204 | The earliest best model of a round is the first of the next |

## Left out

- SquadFeatures.ConvertExample: an error is a missing result; features that were handed on before a later example raises it are not modelled.
- SquadNBest.WritePredictions: models one example with its features in order; grouping features by example, the lookup table of results and writing the files only add a loop over independent examples. `n_best_size` is at least 1.
- ReservationServer.Server.constructor: the cache starts empty; under the names as written it may not lose counts other than zero, because the claim is false otherwise (see above).
- ReservationServer.Server.MakeReservation: requests run one at a time. Overlapping requests, a failure between the cache write and the inserts, errors of the cache or the database other than a miss, and unparsable dates are not modelled.
- Capacity: one capacity for each hotel; the source takes any of several documents.
- Counts, room numbers, durations and counters are unbounded integers; machine width and overflow are not modelled.
- Floating point: rounding of scores, of MapReduce values and of currency amounts is not modelled.
- Currency.Convert: unknown currency codes, which the source turns into NaN, and the callback are not modelled; both rates are positive.
- Halving.Tune: the trainer is a score for each model, place and round size, and returns the configuration it was given. The list of configurations is not empty; building it as a product of parameter lists is left out.
- FanIn, Gather: `log.Fatal`, panics, timeouts and cancelled contexts end the process or the call and are not steps of the protocols; for the paths of `fanOut` and `broadcast` that exit on an error, an error is reported on the channel as the following line would. Each is started with a channel of its own.
- Deploy: a url is the function's name and number; namespace and gateway are constant suffixes. A failed deployment only logs.
- Download: a failed download counts as attempted, as in the source. The number of goroutines is a parameter.
- MapReduceDriver.DriveFunction: mappers and reducers run concurrently in the source but share no state except storage, where their keys differ; here they run in turn. Result files of reducers, metadata and XDT are left out. The job id, "0" in the source, is any string without a comma.
- SquadAnswers.ReadAnswer: one annotation of one question; the error for a training question without exactly one answer, questions marked impossible and the cut to 100 examples are left out.
- Model inference, softmax probabilities, detokenization and text normalisation.
- gRPC, HTTP, MongoDB, memcached, S3 and XDT clients, tracing, flags and logging.
- The other hotel services, the online shop apart from currency conversion, authentication, Fibonacci, word count and the invoker: lookups and short loops that would add only easy members.
- Chart rendering and percentiles.
