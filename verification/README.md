# A verified model of liblcvm's timing, policy and CSV logic

liblcvm reads the sample tables of an ISOBMFF video track, computes per-frame
times and drop statistics from them, runs a small warning policy over the
resulting columns, and writes the columns as CSV. This project models those
three parts in Dafny and proves what they promise.

**Timing** (`MachineInts`, `Doubles`, `Reals`, `Selections`, `Sorting`, `Statistics`,
`FrameRates`, `FrameDrops`, `SampleTables`, `Deltas`, `Timing`,
`TimingTheorems`). `Timing.TimingInformation` is a class with the fields of the
original; its methods fill and overwrite the lists step by step. They are proved
against sections 8.6.1.2 and 8.6.1.3 of ISO/IEC 14496-12, written in
`SampleTables` over unbounded integers, and against specification functions
whose meaning is proved separately: the median minimises the total distance and
stays within one standard deviation of the mean, average and median frame rates
compare with the reciprocals of the average and median duration, drops are at
most half of the durations when the median is not negative and at least half
when it is negative, percentiles and consecutive counts are dual under an exact
condition, wrapped deltas rebuild the list, sorting is one stable permutation of
all lists.

**Policy** (`RulesTokens`, `RulesShapes`, `RulesLexer`, `RulesTree`, `RulesGrammar`,
`RulesPrecedence`, `RulesParser`, `PolicyValues`, `PolicyProto`, `PolicyEval`, `PolicyMeaning`,
`PolicyMessages`, `PolicyRunner`). The lexer is longest match with the earliest
rule on ties. The parser is a class over a token cursor; it accepts exactly the
token lists of canonical trees, and each of those has one tree; the tokens are
described by their characters and the nesting by the tokens. The visitor's
rule messages have the same outcome (true, false or exception) as the direct
meaning of the tree, and a run reports exactly the messages of the true
statements up to the first one that throws.

**CSV** (`Csv`). The quote-doubling loop and the row writer are undone by a
reader after section 2 of RFC 4180, exactly when every row has a field and no
field has a NUL in it.

Doubles are reals; quotients with a divisor of zero give the infinities and NaN
of `Doubles.Double`. Conversions between text and double
(`PolicyValues.Library`) and the square root are parameters. `std::sort` and `std::stable_sort` are insertion
sorts, and `Sorting.SortedUnique` and `Sorting.StableOrderUnique` show that any
implementation with the same contract returns the same list.

Where the repository's documentation and its code differ, the model follows the
code: `policy/README.md` lists a grammar without `version`, without identifiers
as values and with NUMBER as the only number; the comment above
`calculate_vector_deltas_int32_t` numbers the differences from 1, the code from
0.

Five properties hold only under a condition, and each is stated in both
directions with an input on which it fails:

- sorting a track without composition offsets leaves it in place exactly when no
  decode time reaches 2^32 (`TimingTheorems.SortIsIdentityWithoutCtts`), and that
  is also exactly when the sorted deltas are the stts values
  (`TimingTheorems.SortedDeltasAreSttsExactly`); three samples of 2^31 units come
  out in another order (`TimingTheorems.WrappedFrameMoves`);
- sorted durations are all nonnegative exactly when no frame comes 2^31 units or
  more after the one before it (`TimingTheorems.SortedDurationsNonnegative`),
  which the same three samples do (`TimingTheorems.WideGapIsNegative`);
- the reported percentiles and consecutive counts are dual exactly when there
  are drops, and the median is not negative or all drops are equally many whole
  medians long (`FrameDrops.DualExactly`), and the percentiles do not decrease
  exactly when the median is not negative or all drops are equal
  (`FrameDrops.PercentilesNondecreasingExactly`); a sorted track without such a gap
  has both as soon as it has drops (`TimingTheorems.TrackDropBounds`), and the
  unsorted times 4, 2, 0, 0 have neither (`TimingTheorems.UnsortedTrackIsNotDual`);
- the CSV text reads back as its rows exactly when every row has a field and no
  field has a NUL (`Csv.CsvRoundTrip`, `Csv.CsvRoundTripFails`).

`dafny verify dfyconfig.toml` checks the whole project.

## Model

| member | source | states |
|---|---|---|
| MachineInts.AddInt32WraparoundExact | src/liblcvm.cc:587-590 | the wrapped sum is congruent to the exact sum modulo 2^32 and equals it if and only if that fits in int32 |
| MachineInts.AddUndoesSub | src/liblcvm.cc:762-765 | adding a wrapped difference back gives the minuend, whatever wrapped |
| Doubles.QuotientMeaning | src/liblcvm.cc:784-785 | a quotient by a nonzero divisor is undone by multiplying; by zero it is an infinity with the dividend's sign, or NaN |
| Doubles.LessMeaning | src/policy_runner.cc:192-204 | comparing finite doubles is comparing the reals, with the infinities at the ends |
| Doubles.Trichotomy | src/policy_runner.cc:192-204 | without NaN exactly one of less, equal and greater holds; with NaN none |
| Doubles.LessIsTransitive | src/policy_runner.cc:192-204 | less is transitive, infinities included |
| Doubles.TruncateMeaning | src/liblcvm.cc:1043 | the conversion to int is the nearest integer on the side of zero |
| SampleTables.SecondsMeaning | src/liblcvm.cc:639-643 | seconds times the timescale are the units |
| SampleTables.DTIsSum | src/liblcvm.cc:629-645 | the decode time of a frame is the sum of the expanded deltas before it |
| SampleTables.EntryInRun | src/liblcvm.cc:634-645 | the samples of a table entry are its count many ones after those of the entries before it |
| SampleTables.OffsetPastEnd | src/liblcvm.cc:703-717 | past its samples a ctts table repeats the last entry's offset, even one with count 0 |
| SampleTables.PtsIsExactWhenItFits | src/liblcvm.cc:684-685 | a stored pts is congruent to the exact CT(i) and equal to it if and only if CT(i) fits in int32 |
| Timing.TotalSampleCount | src/liblcvm.cc:612-615 | the uint64_t accumulation never wraps: it is the exact number of samples of any table with fewer than 2^32 entries |
| Timing.TimingInformation.InitTimingInformation | src/liblcvm.cc:517-528 | the state before the tables are read: first frame at 0, other lists empty, no frames |
| Timing.TimingInformation.RunSttsEntry | src/liblcvm.cc:634-645 | one stts entry extends the stts, dts and pts lists by its samples and keeps the running dts equal to DT mod 2^32 |
| Timing.TimingInformation.RunSttsTable | src/liblcvm.cc:627-658 | the lists hold STTS(i), DT(i) mod 2^32 in seconds, and its int32 image for every frame, and the frame count does not overflow |
| Timing.TimingInformation.AdjustFrame | src/liblcvm.cc:681-689 | one frame gets its composition offset in all three lists, the frames before and after keep theirs |
| Timing.TimingInformation.ApplyCttsTable | src/liblcvm.cc:663-717 | after both loops every frame holds CTTS(i), the int32 image of CT(i), and that in seconds; extra samples are ignored |
| Timing.TimingInformation.ParseTimingInformation | src/liblcvm.cc:592-726 | success if and only if there is a stts table whose exact total is at most the limit and INT_MAX; on refusal nothing has grown; on success every list is that of ISO/IEC 14496-12 modulo 2^32 |
| Sorting.SortedUnique | src/liblcvm.cc:773-774 | a list has one sorted permutation, so any correct sort returns it |
| Sorting.StableSort | src/liblcvm.cc:852-856 | sorting the vector 0..n-1 by pts gives an order by increasing key with ties in original order |
| Sorting.StableOrderUnique | src/liblcvm.cc:852-856 | no other order of the frames is a stable order of the same keys |
| TimingTheorems.StableOrderIsPermutation | src/liblcvm.cc:842-856 | frame_num_orig_list holds each of 0..n-1 exactly once |
| TimingTheorems.StableOrderSorts | src/liblcvm.cc:852-870 | the reordered pts_sec do not decrease and equal ones keep their original order |
| Timing.ReorderByIndex | src/liblcvm.cc:822-837 | element i becomes element order[i]; an empty list is kept; a size mismatch returns -1 and the list as it was |
| Timing.TimingInformation.SortFrames | src/liblcvm.cc:841-878 | one stable order is applied to the five lists in turn, up to the first with a wrong size, which alone makes the result -1 |
| Timing.TimingInformation.DeriveFromTables | src/liblcvm.cc:858-877 | on lists read from tables the size-mismatch error is unreachable and all lists are reordered by the same stable order |
| Timing.AnalyzeVideoTrack | src/liblcvm.cc:517-580 | a track is analysed if and only if its stts table is present and admitted and the two frame-information steps succeed, and then all lists and derived fields are functions of the tables |
| Deltas.CalculateVectorDeltas | src/liblcvm.cc:755-766 | the n - 1 wraparound differences of neighbours |
| Deltas.DeltasRoundTrip | src/liblcvm.cc:755-766 | the first value and the wraparound prefix sums of the differences rebuild the whole list |
| TimingTheorems.DeltasAreSttsValues | src/liblcvm.cc:629-645 | without ctts and unsorted the differences are the first n - 1 stts values as int32, even where the dts wraps past 2^32 |
| TimingTheorems.SortIsIdentityWithoutCtts | src/liblcvm.cc:848-856 | without ctts the stable sort moves no frame if and only if no decode time reaches 2^32 |
| TimingTheorems.WrappedFrameMoves | src/liblcvm.cc:629-645 | three samples of 2^31 units without ctts are sorted as 0, 2, 1, because the third dts wraps to 0 |
| TimingTheorems.SortedDeltasAreSttsValues | src/liblcvm.cc:848-889 | when no decode time wraps, the sorted differences are the stts values as well |
| TimingTheorems.SortedDeltasAreSttsExactly | src/liblcvm.cc:848-889 | without ctts, all sorted differences are the stts values if and only if no decode time reaches 2^32 |
| TimingTheorems.SortedDurationsNonnegative | src/liblcvm.cc:848-889 | in presentation order, with or without ctts, no duration is negative if and only if no two neighbours are 2^31 units or more apart |
| TimingTheorems.InRangeHasNoWideGap | src/liblcvm.cc:639-688 | exact presentation times in 0..2^31-1 leave no such gap in any order |
| TimingTheorems.WideGapIsNegative | src/liblcvm.cc:629-645 | three samples of 2^31 units, sorted, have such a gap and a negative duration |
| TimingTheorems.TrackFrame | src/liblcvm.cc:592-878 | row i of the per-frame lists of an analysed track belongs to frame f = frame_num_orig_list[i]: its delta and offset, dts_sec times timescale is DT mod 2^32, pts_unit is congruent to DT + offset, and pts_sec times timescale is pts_unit, or the dts without ctts |
| TimingTheorems.TrackOrder | src/liblcvm.cc:841-878 | frame_num_orig_list is a permutation of the frames under which pts_sec does not decrease and ties keep their order, or 0..n-1 when not sorting |
| TimingTheorems.TrackSeries | src/liblcvm.cc:880-948 | row i of the derived series: duration times timescale is the wrapped difference, delta plus average is the duration, and both rates times the duration are 1, or NaN and 0 |
| TimingTheorems.TrackAverages | src/liblcvm.cc:890-966 | average times count is the sum, for durations and rates, and the reverse average undoes the average |
| TimingTheorems.TrackRatios | src/liblcvm.cc:918-937 | key frame ratio times key frames is the frame count; audio/video ratio times video seconds is audio seconds when usable; a freeze is 20 audio > 21 video |
| TimingTheorems.TrackMedians | src/liblcvm.cc:893-951 | both medians are the means of the two middle elements in rank |
| TimingTheorems.TrackSpreads | src/liblcvm.cc:896-969 | n(n - 1) times either squared stddev is the sum of squared differences over all pairs; 0 for one duration |
| TimingTheorems.TrackMad | src/liblcvm.cc:898-899 | the MAD field is the mean of the two middle distances in rank, and at most any distance that covers a majority |
| TimingTheorems.TrackWithoutDurations | src/liblcvm.cc:880-1029 | all derived values of a track of at most one frame |
| TimingTheorems.TrackDropPositions | src/liblcvm.cc:971-982 | the drops of an analysed track are exactly its durations above 1.5 medians, in order |
| TimingTheorems.TrackDropFigures | src/liblcvm.cc:987-1029 | ratio, count and normalized length of an analysed track, each by what multiplying it back gives, or by the integer bounds of the count |
| TimingTheorems.TotalDurationTelescopes | src/liblcvm.cc:998-1002 | the total duration is last minus first pts when no gap wraps, and differs from it by a multiple of 2^32 units in any case |
| Statistics.MedianRank | src/liblcvm.cc:768-781 | at least half of the elements are at most the median and at least half are at least the median |
| Statistics.MedianIsMidpoint | src/liblcvm.cc:775-780 | the median is the mean of the two middle elements in rank, ranks being stated by counting |
| Statistics.MedianMinimisesDeviation | src/liblcvm.cc:768-781 | no real number has a smaller total absolute deviation from the list |
| Statistics.CalculateStandardDeviation | src/liblcvm.cc:788-803 | for any exact square root, the nonnegative number whose square is the sum of squared deviations over n - 1; 0 below two elements |
| Statistics.StandardDeviationIsUnique | src/liblcvm.cc:788-803 | only one number fits that description |
| Statistics.VarianceFromPairs | src/liblcvm.cc:796-802 | n(n - 1) times the squared standard deviation is the sum of squared differences over all pairs |
| Statistics.MeanMedianWithinStddev | src/liblcvm.cc:768-803 | mean and median of any nonempty list never differ by more than the standard deviation, the nonnegative root of the variance |
| Statistics.MedianFollowsMajority | src/liblcvm.cc:768-781 | when more than half of a list lies in an interval, so does its median |
| Statistics.CalculateMedianAbsoluteDeviation | src/liblcvm.cc:806-817 | the loop and the two medians compute the MAD |
| Statistics.MadCoversHalf | src/liblcvm.cc:806-817 | the MAD is nonnegative and at least half of the elements lie within it of the median |
| Statistics.MadIsMidpoint | src/liblcvm.cc:806-817 | the MAD is the mean of the two middle distances in rank from the median, ranks being stated by counting elements |
| Statistics.DistanceStatisticExists | src/liblcvm.cc:806-817 | there is a distance of every rank |
| Statistics.MadBelowMajorityDistance | src/liblcvm.cc:806-817 | any distance from the median within which more than half of the elements lie is at least the MAD |
| Statistics.StatisticsOfNothing | src/liblcvm.cc:768-817 | the values for an empty list |
| Statistics.AverageMeaning | src/liblcvm.cc:783-786 | the average times the count is the sum |
| FrameRates.AverageRateAboveReverseAverage | src/liblcvm.cc:952-966 | for positive durations the average rate is at least the reverse average, equal if and only if all durations are equal |
| FrameRates.RatesReverseOrder | src/liblcvm.cc:941-948 | taking reciprocals reverses the order statistics of positive durations |
| FrameRates.MedianRateAboveMedianReciprocal | src/liblcvm.cc:941-951 | the median rate is at least the reciprocal of the median duration, equal if and only if the two middle durations are, so always for an odd count |
| FrameRates.RatesMeaning | src/liblcvm.cc:941-948 | every rate times its duration is 1, also for negative durations, and a zero duration has rate 0 |
| FrameRates.ReverseAverageMeaning | src/liblcvm.cc:965-966 | the reverse average times the average is 1; infinite for an average of 0, NaN without durations |
| FrameDrops.DropsAreCounted | src/liblcvm.cc:971-982 | the drops are exactly the durations above 1.5 medians, and so many |
| FrameDrops.DropsInOrder | src/liblcvm.cc:977-982 | the drops are the durations above 1.5 medians, each once and in the order of the frames |
| FrameDrops.DropRatioMeaning | src/liblcvm.cc:987-1005 | ratio times total is the time of the drops beyond one median each, so 0 without drops; an infinity or NaN for a total of 0 |
| FrameDrops.DropCountMeaning | src/liblcvm.cc:1010-1016 | the count is ratio times frames taken toward zero when that is finite and strictly between the int bounds, and 0 otherwise |
| FrameDrops.NormalizedLengthMeaning | src/liblcvm.cc:1022-1029 | length times median times number of drops is the time of the drops; 0 without drops, infinite over a median of 0 |
| FrameDrops.DropsAndHalf | src/liblcvm.cc:971-982 | for every list: with a nonnegative median at most half of the durations are drops, with a negative one at least half |
| FrameDrops.DropBounds | src/liblcvm.cc:971-1016 | for nonnegative durations with a positive total the ratio lies in 0..1 and the count in 0..num_video_frames, and at most half of the durations are drops |
| FrameDrops.DropAccounting | src/liblcvm.cc:987-1029 | for a median and a total that are not 0, ratio times total equals drops times median times (normalized length - 1); the normalized length exceeds 1.5 if and only if the median is positive |
| Timing.SelectDrops | src/liblcvm.cc:973-982 | the loop keeps the durations above the threshold in order |
| Timing.SummariseDrops | src/liblcvm.cc:987-1029 | ratio, truncated and guarded count, and normalized length of a list of drops, including the infinite and NaN cases |
| Timing.TimingInformation.DeriveDurations | src/liblcvm.cc:880-889 | pts_duration_sec_list is the wrapped differences of pts_unit_list in seconds |
| Timing.TimingInformation.DeriveDurationStatistics | src/liblcvm.cc:890-916 | average, median, stddev, MAD, distances to the average and instantaneous rates of the durations |
| Timing.TimingInformation.ParseKeyframeInformation | src/liblcvm.cc:728-748 | the key frame numbers of the stss box, none without one; it never fails |
| Timing.TimingInformation.DeriveKeyframes | src/liblcvm.cc:918-924 | the key frame ratio times the key frames is the frame count, 0 without key frames |
| Timing.TimingInformation.DeriveAudioVideo | src/liblcvm.cc:926-937 | the audio/video ratio times the video seconds is the audio seconds when both are usable, else -1; a freeze is more than 1.05 audio seconds per video second |
| Timing.TimingInformation.DeriveFrameRates | src/liblcvm.cc:939-969 | rates with 0 for a zero duration, their median, average and stddev, and the reverse average |
| Timing.TimingInformation.DeriveFrameDrops | src/liblcvm.cc:971-1029 | the drops are appended to the list, and the ratio, count and normalized length are over that list |
| Timing.TimingInformation.DeriveTimingInfo | src/liblcvm.cc:839-1032 | steps 1 to 12 in order; after the error return of the sort every derived field is as it was |
| TimingTheorems.SortedDropBounds | src/liblcvm.cc:848-1016 | for every pair of tables, sorted, without a gap of 2^31 units: no more than half of the durations are drops, the ratio is a fraction and the count is at most the number of frames |
| TimingTheorems.TrackDropBounds | src/liblcvm.cc:839-1071 | a sorted analysed track has no negative duration if and only if it has no gap of 2^31 units, which times in range exclude; then the bounds hold for its fields, its percentiles do not decrease, and its two drop summaries are dual if and only if it has drops |
| TimingTheorems.TrackDrops | src/liblcvm.cc:971-1071 | for every analysed track, sorted or not: the side of one half the drops are on, the exact conditions of the duality and of nondecreasing percentiles, and the accounting equation of ratio and normalized length |
| TimingTheorems.UnsortedTrackIsNotDual | src/liblcvm.cc:839-1071 | the tables of four unsorted frames at 4, 2, 0, 0 give a negative median and drops whose summaries are not dual and whose percentile 0 is above percentile 90 |
| TimingTheorems.TrackStatistics | src/liblcvm.cc:890-966 | about the fields of an analysed track with two frames or more: mean and median within the stddev, half of the durations within the MAD of the median, and both rate comparisons with their equality conditions |
| Timing.TimingInformation.CalculatePercentileList | src/liblcvm.cc:1034-1052 | the list of drops is sorted in place and each percentile is that of FrameDrops.PercentileIsOrderStatistic; zeros without drops |
| Timing.TimingInformation.CalculateConsecutiveList | src/liblcvm.cc:1054-1071 | one pass counts, for each length asked for, the drops that reach it |
| FrameDrops.PercentileRank | src/liblcvm.cc:1042-1047 | for any real c the percentile is at least c if and only if the drops of at least c medians cover the positions from its own on |
| FrameDrops.PercentileIsOrderStatistic | src/liblcvm.cc:1042-1047 | for 0 <= p < 100 and the k with 100k <= p * n < 100(k + 1), the percentile is the drop of rank k, stated by counting, over the median |
| FrameDrops.RankExists | src/liblcvm.cc:1043 | there is exactly one such k, and it is below n |
| FrameDrops.DualityByRank | src/liblcvm.cc:1034-1071 | under either condition percentile(p) is at least c if and only if consecutive(c) is at least n - k, for that k |
| FrameDrops.ConsecutiveMeaning | src/liblcvm.cc:1061-1069 | the count is of the drops of at least c medians, and below a negative median of those of at most c medians |
| FrameDrops.PercentileConsecutiveDuality | src/liblcvm.cc:1034-1071 | for drops measured in a positive median, or positive ones over a zero median: percentile(p) is at least c if and only if consecutive(c) is at least size - floor(p * size / 100) |
| FrameDrops.DualExactly | src/liblcvm.cc:971-1071 | for every list of durations and every median, that duality holds for all p below 100 and all c if and only if there are drops, and the median is not negative or all drops are equally many whole medians long |
| FrameDrops.DualityFailsBelowZero | src/liblcvm.cc:1044-1046 | three durations in two bands below a negative median, where percentile 0 reaches one median and not every drop does |
| FrameDrops.PercentileMonotone | src/liblcvm.cc:1042-1047 | percentiles below 100 do not decrease for drops measured in a positive median, or positive ones over a zero median |
| FrameDrops.PercentilesNondecreasingExactly | src/liblcvm.cc:971-1047 | for every list of durations and every median, the percentiles below 100 do not decrease if and only if the median is not negative or all drops are equal |
| FrameDrops.PercentilesFallBelowZero | src/liblcvm.cc:1042-1047 | three durations below a negative median, with percentile 0 at one median and percentile 90 at zero |
| FrameDrops.ConsecutiveMonotone | src/liblcvm.cc:1061-1069 | consecutive counts do not increase with the length asked for |
| FrameDrops.ConsecutiveIgnoresSort | src/liblcvm.cc:1040-1041 | the in-place sort changes no consecutive count |
| Timing.TimingInformation.SummariseDropLengths | python/lcvm.py:224-238 | percentiles then counts, as the tools call them: both describe the list before the first call sorted it, and are dual under either condition |
| RulesShapes.MatchByShape | policy/rules.g4:63-68 | which texts are an IDENT, VERSIONID, NUMBER or STRING and which are skipped, by their characters alone |
| RulesShapes.ConnectiveTexts | policy/rules.g4:42-44 | "or", "and" and "not" are their own tokens |
| RulesShapes.RangeTexts | policy/rules.g4:45-57 | so are "in", "range", the parentheses and the comma |
| RulesShapes.EqualityTexts | policy/rules.g4:48-49 | so are "==" and "!=" |
| RulesShapes.OrderTexts | policy/rules.g4:50-53 | so are the four order signs |
| RulesShapes.StatementTexts | policy/rules.g4:59-61 | so are "version", "warn" and "error" |
| RulesShapes.DecimalIsVersionId | policy/rules.g4:64-65 | digits, a dot and digits are one VERSIONID |
| RulesTokens.NumbersHaveNoDot | policy/rules.g4:64-65 | no NUMBER token has a dot in it: that text is a VERSIONID |
| RulesTokens.KeywordsAreNotIdents | policy/rules.g4:42-63 | the words of the language never come out as IDENT |
| RulesLexer.LongestMatch | policy/rules.g4:42-68 | the greatest prefix length that some rule matches, 0 if none does |
| RulesLexer.MunchIsLexed | policy/rules.g4:42-68 | a text cut into pieces that are each the longest match where they stand lexes to the kept ones |
| RulesLexer.LexedIsMunch | policy/rules.g4:42-68 | every text that lexes can be cut that way |
| RulesLexer.LexTokenThen | policy/rules.g4:42-68 | a token is lexed as itself in front of any text that cannot extend it: words end at other characters, "<" and ">" unless "=" follows, all others anywhere |
| RulesLexer.LexSkipsBlanks | policy/rules.g4:67 | blanks, tabs, carriage returns and line feeds are skipped |
| RulesLexer.LexSkipsComment | policy/rules.g4:68 | a comment is skipped up to the end of its line |
| RulesLexer.LineFeedSeparates | policy/rules.g4:67 | what is before and after a line feed is lexed as it is alone |
| RulesLexer.LexFails | policy/rules.g4:42-68 | a text that starts with no match is an error |
| RulesLexer.LexUndoesPrint | policy/rules.g4:42-68 | tokens printed with spaces between them lex back to the same kinds and texts |
| RulesLexer.RelexIsStable | policy/rules.g4:42-68 | printing and lexing again any lexed text gives the same tokens |
| RulesGrammar.ParseExprIsSound | autogen/antlr-gen/rulesParser.cpp:622-764 | the leaves of a parsed tree are the consumed tokens, the tree is canonical, and no operator the call should have taken follows |
| RulesGrammar.ParseLeaves | autogen/antlr-gen/rulesParser.cpp:622-764 | parsing the leaves of a canonical tree builds that tree and goes on with the operators after it |
| RulesGrammar.ParseExprIffCanonical | autogen/antlr-gen/rulesParser.cpp:622-764 | a token list parses to a tree if and only if the tree is canonical (OR tighter than AND, left-associative, no left operand ending in an open not) and its leaves are the tokens |
| RulesGrammar.CanonicalTreeIsUnique | policy/rules.g4:11-18 | a token list has at most one canonical tree |
| RulesGrammar.ParseProgramIffCanonical | autogen/antlr-gen/rulesParser.cpp:187-232 | the same for programs: optional version, statements, end of input |
| RulesPrecedence.ParsesComparison | policy/rules.g4:16-33 | column, operator and value parse to that comparison if and only if the operator is one of the six and the value a STRING, NUMBER, VERSIONID or IDENT |
| RulesPrecedence.ParsesRange | policy/rules.g4:17-38 | the tokens of a range parse to it, lower bound first, if and only if both bounds are NUMBER or VERSIONID |
| RulesPrecedence.OrBindsTighter | autogen/antlr-gen/rulesParser.cpp:622-764 | or groups before and on either side of it |
| RulesPrecedence.LeftAssociative | autogen/antlr-gen/rulesParser.cpp:622-764 | chains of one connective nest to the left |
| RulesPrecedence.NotTakesTheRest | autogen/antlr-gen/rulesParser.cpp:645-665 | not negates everything after it up to a closing parenthesis |
| RulesPrecedence.ParsesSeverity | policy/rules.g4:9 | a statement parses if and only if it starts with warn or error |
| RulesPrecedence.ParsesStatements | policy/rules.g4:5-9 | two statements, with and without a version in front, parse to that program |
| RulesPrecedence.DecimalsAreValues | policy/rules.g4:29-38 | a decimal text is one token, and a comparison with it parses |
| RulesPrecedence.DecimalRangeIsRead | policy/rules.g4:17-38 | the source text of a range with dotted bounds lexes and parses to that range |
| RulesParser.RulesParser.Number | autogen/antlr-gen/rulesParser.cpp:990-1024 | consumes a VERSIONID or NUMBER and nothing else |
| RulesParser.RulesParser.CompOp | autogen/antlr-gen/rulesParser.cpp:822-855 | consumes one of the six comparison operators and nothing else |
| RulesParser.RulesParser.Value | autogen/antlr-gen/rulesParser.cpp:900-949 | consumes a string, number or identifier and nothing else |
| RulesParser.RulesParser.Primary | autogen/antlr-gen/rulesParser.cpp:645-709 | the four alternatives that start an expression, with the cursor left where the grammar function leaves it |
| RulesParser.RulesParser.Expr | autogen/antlr-gen/rulesParser.cpp:622-764 | the operator loop with its precedence checks returns the tree and cursor of the grammar function, and terminates |
| RulesParser.RulesParser.Statement | autogen/antlr-gen/rulesParser.cpp:348-386 | severity, label and condition, or a syntax error |
| RulesParser.RulesParser.Program | autogen/antlr-gen/rulesParser.cpp:187-232 | the program of the whole token list, or a syntax error |
| RulesParser.Parse | src/policy_runner.cc:341-352 | on success the program is canonical with exactly the given tokens; when any canonical program has them, that one is returned |
| PolicyMeaning.VisitValueIsLiteral | src/policy_protovisitor.cc:98-105 | a string literal loses exactly its quotes and any other value is kept |
| PolicyMeaning.CompareMeaning | src/policy_runner.cc:122-208 | the evaluator's branches on a compiled comparison agree with comparing texts or numbers as the column's type says |
| PolicyMeaning.CompilesIffBoundsAreNumbers | src/policy_protovisitor.cc:112-125 | compilation throws if and only if some range bound is not a number |
| PolicyMeaning.CompilePreservesMeaning | src/policy_protovisitor.cc:32-125 | for every dictionary the compiled message has the outcome of the tree's left-to-right short-circuit meaning, exceptions included |
| PolicyValues.ConvertingColumns | src/liblcvm.cc:45-55 | int and double columns convert, to their own value, and no others |
| PolicyValues.ShowIntReadsBack | src/liblcvm.cc:57-70 | the text of an integer reads back in base 10, signed when negative, without leading zeros |
| PolicyValues.TextOfColumn | src/liblcvm.cc:57-75 | the text of a column of each type |
| PolicyEval.ComparedNumbers | src/policy_runner.cc:170-208 | the six operators on a number column and a right-hand side with a value are those of the reals |
| PolicyEval.ComparedNaN | src/policy_runner.cc:191-208 | with NaN on either side only "not equal" is true |
| PolicyEval.ComparedTexts | src/policy_runner.cc:143-168 | string columns compare for equality and throw otherwise |
| PolicyEval.NothingToCompare | src/policy_runner.cc:122-222 | a missing or unconvertible column, or a right-hand side that is no number, is false |
| PolicyEval.RangeIsClosed | src/policy_runner.cc:210-225 | a range includes both bounds |
| PolicyEval.FirstThatDecides | src/policy_runner.cc:232-250 | a connective has the outcome of its first operand that is not true (and) or not false (or), exceptions included, and else true or false |
| PolicyEval.NotMeaning | src/policy_runner.cc:227-230 | not swaps true and false and lets an exception through |
| PolicyMeaning.LiteralMeaning | src/policy_protovisitor.cc:98-105 | a string literal is the text between its quotes, any other value its own text |
| PolicyMeaning.NumbersCompare | src/policy_runner.cc:170-208 | the source comparisons `==`, `!=`, `<`, `<=`, `>` and `>=` of numbers are those of the reals |
| PolicyMeaning.NaNCompares | src/policy_runner.cc:191-208 | with NaN on either side only `!=` is true |
| PolicyMeaning.TextsCompare | src/policy_runner.cc:143-168 | texts compare for equality and throw otherwise |
| PolicyMeaning.NothingCompares | src/policy_runner.cc:122-222 | a condition with nothing to compare is false |
| PolicyMeaning.RangeMeaning | src/policy_runner.cc:210-225 | `x in range(a, b)` is a <= x <= b |
| PolicyMeaning.ConnectiveMeaning | src/policy_runner.cc:227-250 | the truth tables of and, or, not and parentheses, with exceptions and short circuits |
| PolicyMeaning.ChainMeansNary | src/policy_protovisitor.cc:36-60 | the left-nested chain emitted for e1 and ... and en (or or) has the outcome of one connective over all operands |
| PolicyEval.ChainIsNary | src/policy_runner.cc:232-250 | a left-nested binary chain and the n-ary connective have the same outcome for every dictionary |
| PolicyEval.Regroup | src/policy_runner.cc:232-250 | operands of the same connective can be grouped or ungrouped anywhere |
| PolicyEval.DeMorgan | src/policy_runner.cc:227-250 | negating a connective negates its operands under the other one, with the same exceptions |
| PolicyEval.DoubleNegation | src/policy_runner.cc:227-230 | a double negation keeps the outcome |
| PolicyMessages.CollectVariables | src/policy_runner.cc:269-298 | the recursive walk appends the collected columns to the caller's list |
| PolicyMessages.FormatRuleMessage | src/policy_runner.cc:300-321 | the label, and in parentheses the collected pairs when there are any |
| PolicyMessages.MessageReadsBack | src/policy_runner.cc:300-321 | label and pairs can be read back from a message when names have no colon and values no comma |
| PolicyMessages.MessageIsAmbiguous | src/policy_runner.cc:300-321 | a value with a comma can make two lists of pairs look the same |
| PolicyMessages.ColumnTokensInOrder | src/policy_runner.cc:269-298 | the column tokens of a token list are exactly its identifiers before an operator or `in`, in order |
| PolicyMessages.PresentInOrder | src/policy_runner.cc:269-298 | the listed pairs are the columns that the dictionary has, in order, with the texts of their values |
| PolicyMessages.ColumnsInSourceOrder | src/policy_runner.cc:269-298 | the columns of a condition are the identifiers before an operator or `in` in its tokens, left to right |
| PolicyMessages.CollectedAreColumns | src/policy_runner.cc:269-298 | a message lists those columns of the source that the dictionary has, in that order |
| PolicyRunner.BuildDictionary | src/policy_runner.cc:357-364 | keys up to the shorter list, each with the value at its last position |
| PolicyRunner.DictionaryIsUnique | src/policy_runner.cc:357-364 | only one dictionary fits that description |
| PolicyRunner.ConvertToProto | src/policy_runner.cc:82-97 | the rules of all statements in order and the version, or the exception of the first visit that throws |
| PolicyRunner.PolicyReport.EvaluateRules | src/policy_runner.cc:323-339 | each list grows by the messages of the true rules of its severity before the first rule that throws |
| PolicyRunner.FiredIsReported | src/policy_runner.cc:323-339 | the messages of the first k rules are those of the first k source statements |
| PolicyRunner.ReportedInOrder | src/policy_runner.cc:323-339 | the messages of a severity are those of exactly the true statements of that severity, in the order of the source |
| PolicyRunner.PolicyIsRead | src/policy_runner.cc:341-352 | a text denotes a program if and only if it lexes to the tokens of that program, which is canonical |
| PolicyRunner.ThrowsAlike | src/policy_runner.cc:323-339 | the first rule that throws is that of the first statement whose meaning throws |
| PolicyRunner.RunPolicy | src/policy_runner.cc:354-389 | status, lists and version of a whole run in terms of the policy text: empty on a malformed text or bound, the messages before the first throwing statement, or all of them |
| Csv.CsvEscape | tools/lcvm.cc:55-67 | the insertion loop terminates and computes the string with doubled quotes, quoted when it has a comma, quote or line feed |
| Csv.WriteRow | tools/lcvm.cc:123-130 | the loop writes the escaped fields with commas between and a line feed after them |
| Csv.WriteRows | tools/lcvm.cc:99-130 | all rows in order, and reading them back gives the rows if and only if every row has a field and no field has a NUL |
| Csv.CsvRoundTrip | tools/lcvm.cc:55-130 | the reader undoes the writer if and only if every row has a field and no field has a NUL |
| Csv.CsvRoundTripFails | tools/lcvm.cc:122-130 | a field of one NUL reads back empty, and a row without fields is lost |
| Csv.EscapedForm | tools/lcvm.cc:55-67 | a field is unchanged if and only if it has no comma, quote or line feed, and else enclosed in quotes |
| Csv.RowForm | tools/lcvm.cc:123-130 | plain fields are separated by commas and ended by a line feed |
| Csv.CStrForm | tools/lcvm.cc:128-129 | a field is written up to its first NUL |

## Left out

- Timing.AnalyzeVideoTrack: requires a positive timescale; with a zero timescale the source divides by zero and sorts on NaN keys. The outcomes of the sample entry and file size steps are parameters.
- Timing.TimingInformation.DeriveAudioVideo: the track durations are reals, so a duration that is infinite or NaN for a zero timescale is not modelled.
- Timing.TimingInformation.CalculatePercentileList: requires positions inside the list, where the source reads past its end.
- Statistics.CalculateStandardDeviation: `std::sqrt` is a parameter that gives exact roots, because the square root of a real is not a real expression.
- Statistics.CalculateMedianAbsoluteDeviation: takes `abs` to be the overload for doubles; where only the integer function is visible the source would truncate first.
- RulesLexer.Lex: a character that no rule matches is an error for the whole text; the generated lexer reports it and goes on after it.
- RulesParser.Parse: any syntax error rejects the policy; the generated parser reports it, recovers and yields a partial tree.
- RulesParser.RulesParser.Primary: one or two tokens of lookahead stand for the adaptive prediction of the runtime library.
- PolicyRunner.RunPolicy: the version output is always present, as a null pointer only skips the assignment; the text of exceptions is not modelled.
- PolicyValues.Library: `std::stod` and the text of a double are parameters, so no rounding or formatting of doubles is modelled.
- IEEE rounding and overflow of doubles: computed fields are exact reals.
- Update of the `TimingInformation` lists in place: they are sequence fields that the methods reassign, so capacity and aliasing are not modelled.
- Walking the ISOBMFF boxes, sample entries and audio parsing: the tables and track durations are inputs.
- The header row and the timestamps file of the CSV tool, which write names and numbers without a round trip.
- Printing of trees and messages, files, the Python and C interfaces, command-line parsing.
