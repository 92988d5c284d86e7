# Launch HN grid: a Dafny model of the data derivation

HNLaunches draws the latest 900 "Launch HN" stories (all of them when there
are fewer) as squares of a commit-style grid. When the `CommitGraph`
component mounts, it takes the bundled dataset of launches and derives the
grid from it:

1. It sorts the records newest first by creation date and keeps the first
   900. It then reverses them, so the grid reads from oldest to newest.
2. It computes the 95th-percentile score of the kept records. The scores are
   sorted ascending and read at index `floor(0.95 n) - 1`.
3. It lists the records scoring at most that threshold.
4. It paints one square per kept record. A record scoring above the
   threshold gets a five-stop gold gradient. Every other record gets
   `hsl(24, s%, 50%)`, where `s` is `min(points / threshold * 100, 100)`.

The model follows that derivation as pure functions, in seven modules:

- `LaunchData` holds the records, squares and colours.
- `Sorting` is one stable sort by an integer key, written as an insertion
  sort. Both comparators of the component are this sort: `b - a` on
  creation time is the key `-createdAt`, and `a - b` on scores is the
  score itself.
- `DateOrder` is the newest-first sort.
- `Selection` covers the cut to 900 and the reversal.
- `Percentile` covers the threshold.
- `Colouring` covers the filter and the paint.
- `LaunchesGrid` is the whole derivation, `Derive`, with theorems that join
  the steps.

How the JavaScript values are modelled:

- **An undefined threshold.** With fewer than two records the percentile
  index is outside the array, and the threshold is `undefined`. The model
  writes this as `None`. Against `undefined`, both `points <= threshold`
  and `points > threshold` are false. So no record is filtered, none is
  gold, and every square gets a NaN saturation.
- **NaN and Infinity.** `Saturation` is either a percentage or `NaN`. A zero
  threshold divides 0 by 0 for a zero score, which gives NaN. A positive
  score over a zero threshold would be Infinity, capped at 100. That case
  never reaches the painter, because such a record is gold.
- **The percentile index.** `Math.floor(0.95 * n)` is written as the exact
  integer `95 * n / 100`. The double nearest to 0.95 is off by less than
  half a unit in the last place, relative to the product. So the
  floating-point product floors to the same integer for every `n`.
- **Stability.** `Array.prototype.sort` is stable. Records with equal
  timestamps therefore keep their input order in the newest-first sort. The
  proofs state this through `StampedAt`, the records of one timestamp in
  order. After the reversal those records appear in reverse input order.
  When a timestamp is cut at position 900, the records kept are the ones
  earliest in the input.

## Model

| member | source | states |
|---|---|---|
| Sorting.SortPermutes | src/app/LaunchesGrid.tsx:32-36 | the sort keeps the same elements with the same multiplicities, and the same length |
| Sorting.SortIsSorted | src/app/LaunchesGrid.tsx:33-36 | the sort's output is ordered by the key |
| Sorting.SortKeepsKeyOrder | src/app/LaunchesGrid.tsx:33-36 | stability: for every key, the output lists the elements of that key exactly as, and in the order, the input does |
| Sorting.StableSortIsUnique | src/app/LaunchesGrid.tsx:33-36 | any sequence that is sorted by the key and keeps every key's input order equals the sort's output, so the model agrees with every stable sort |
| Sorting.SortIsStable | src/app/LaunchesGrid.tsx:33-36 | the sort's output is a stable sort of its input: ordered by the key, with every key's elements in input order |
| Sorting.KeyedAtMembers | src/app/LaunchesGrid.tsx:33-36 | the per-key selection holds exactly the elements with that key |
| Sorting.KeyedAtPrefix | src/app/LaunchesGrid.tsx:37 | a prefix of a sequence keeps a prefix of each key's elements |
| DateOrder.SortNewestFirstPermutes | src/app/LaunchesGrid.tsx:32-36 | the newest-first sort drops no record and adds none |
| DateOrder.SortIsNewestFirst | src/app/LaunchesGrid.tsx:33-36 | every record sorts before every record created earlier |
| DateOrder.SortKeepsStampOrder | src/app/LaunchesGrid.tsx:33-36 | records created at the same time keep their input order |
| DateOrder.StableNewestFirstIsUnique | src/app/LaunchesGrid.tsx:33-36 | the sort is the only stable newest-first ordering of the dataset |
| DateOrder.SortIsStableNewestFirst | src/app/LaunchesGrid.tsx:33-36 | the sort is a stable newest-first ordering of the dataset: newest first, and each timestamp's records in input order |
| DateOrder.StampedAtMembers | src/app/LaunchesGrid.tsx:35 | the records of a timestamp are exactly the records created at that time |
| Sorting.SortBy | src/app/LaunchesGrid.tsx:32-36 | no contract; its properties are stated by `Sorting.SortPermutes`, `Sorting.SortIsSorted`, `Sorting.SortKeepsKeyOrder` and `Sorting.StableSortIsUnique` |
| DateOrder.SortNewestFirst | src/app/LaunchesGrid.tsx:32-36 | no contract; its properties are stated by `DateOrder.SortNewestFirstPermutes`, `DateOrder.SortIsNewestFirst`, `DateOrder.SortKeepsStampOrder` and `DateOrder.StableNewestFirstIsUnique` |
| DateOrder.NewestFirst | src/app/LaunchesGrid.tsx:34-35 | no contract; tied to the generic order by `DateOrder.NewestFirstIsSortedByRecency` |
| DateOrder.NewestFirstIsSortedByRecency | src/app/LaunchesGrid.tsx:34-35 | sorting by the key `-createdAt` is the same as sorting newest first |
| DateOrder.Recency | src/app/LaunchesGrid.tsx:34-35 | no contract; that sorting by it is newest-first order is stated by `DateOrder.NewestFirstIsSortedByRecency` and `DateOrder.SortIsNewestFirst` |
| Selection.Latest | src/app/LaunchesGrid.tsx:32-37 | no contract; its properties are stated by `Selection.LatestKeepsEarliestTies` and the `Selection.Retained*` rows |
| Selection.Retained | src/app/LaunchesGrid.tsx:32-38 | no contract; its properties are stated by `Selection.RetainedLength`, `Selection.RetainedOldestFirst`, `Selection.RetainedAreLatest`, `Selection.RetainedTiesReverseInputOrder` and `Selection.RetainedKeepsIdsDistinct` |
| Selection.OldestFirstIsSortedByCreation | src/app/LaunchesGrid.tsx:38 | oldest-first order is the same as sorting by the key `createdAt` |
| Selection.Reversed | src/app/LaunchesGrid.tsx:38 | the reversal has the same length and puts element `i` at position `n - 1 - i` |
| Selection.ReversedTwice | src/app/LaunchesGrid.tsx:38 | reversing twice gives back the sequence |
| Selection.ReversedAppend | src/app/LaunchesGrid.tsx:38 | reversing a concatenation reverses and swaps the parts |
| Selection.ReversedMultiset | src/app/LaunchesGrid.tsx:38 | the reversal keeps every element with its multiplicity |
| Selection.KeyedAtReversed | src/app/LaunchesGrid.tsx:38 | the elements of a key in a reversal are that key's elements reversed |
| Selection.RetainedLength | src/app/LaunchesGrid.tsx:32-38 | the grid holds `min(900, n)` records |
| Selection.RetainedOldestFirst | src/app/LaunchesGrid.tsx:32-38 | the grid reads from oldest to newest |
| Selection.RetainedAreLatest | src/app/LaunchesGrid.tsx:32-38 | the grid's records come from the dataset unchanged, never more often than the dataset holds them, and every record left out is at most as recent as every record shown |
| Selection.LatestKeepsEarliestTies | src/app/LaunchesGrid.tsx:32-37 | cutting to 900 keeps, for each timestamp, a prefix of that timestamp's records in input order |
| Selection.RetainedTiesReverseInputOrder | src/app/LaunchesGrid.tsx:32-38 | records created at the same moment appear in reverse input order, and those kept are the earliest of them in the input |
| Selection.RetainedKeepsIdsDistinct | src/app/LaunchesGrid.tsx:32-38 | if the dataset's story ids are distinct, so are the grid's, which is what the squares are keyed and linked by |
| Selection.DistinctIdsOfSubMultiset | src/app/LaunchesGrid.tsx:32-38 | records drawn from a dataset without repeated ids repeat no id |
| Percentile.Scores | src/app/LaunchesGrid.tsx:41 | one score per record, in record order |
| Percentile.SortAscendingPermutes | src/app/LaunchesGrid.tsx:42 | the score sort keeps every score with its multiplicity |
| Percentile.SortAscending | src/app/LaunchesGrid.tsx:42 | no contract; its properties are stated by `Percentile.SortAscendingPermutes`, `Percentile.SortIsAscending` and `Percentile.SortKeepsCounts` |
| Percentile.SortIsAscending | src/app/LaunchesGrid.tsx:42 | the sorted scores are ascending |
| Percentile.AscendingIsSortedByScore | src/app/LaunchesGrid.tsx:42 | ascending order is the same as sorting by the score itself |
| Percentile.Score | src/app/LaunchesGrid.tsx:42 | no contract; that sorting by it is ascending order is stated by `Percentile.AscendingIsSortedByScore` and `Percentile.SortIsAscending` |
| Percentile.SortKeepsCounts | src/app/LaunchesGrid.tsx:42 | sorting changes neither how many scores are at most `v` nor how many are below `v` |
| Percentile.PercentileIndex | src/app/LaunchesGrid.tsx:43 | no contract; its range is stated by `Percentile.PercentileIndexInRange` |
| Percentile.Percentile95 | src/app/LaunchesGrid.tsx:42-44 | no contract; its properties are stated by `Percentile.Percentile95IsRankStatistic` and `Percentile.Percentile95IsUnique` |
| Percentile.PercentileIndexInRange | src/app/LaunchesGrid.tsx:43 | the index `floor(0.95 n) - 1` lies in `[0, n)` exactly when `n >= 2` |
| Percentile.AscendingRank | src/app/LaunchesGrid.tsx:42-44 | in ascending scores, at most `i` scores lie below the one at index `i`, and more than `i` lie at or below it |
| Percentile.Percentile95IsRankStatistic | src/app/LaunchesGrid.tsx:41-44 | the threshold is defined exactly when `n >= 2`; it is then one of the scores, fewer than `floor(0.95 n)` scores lie below it, and at least `floor(0.95 n)` lie at or below it |
| Percentile.Percentile95IsUnique | src/app/LaunchesGrid.tsx:41-44 | any score meeting that rank condition is the threshold |
| Percentile.CountsMonotone | src/app/LaunchesGrid.tsx:42-44 | raising the bound never lowers the count |
| Colouring.IsTop | src/app/LaunchesGrid.tsx:55 | no contract; its use is stated by `Colouring.GoldExactlyForTop`, `Colouring.TopMembers` and `Colouring.NoThresholdNoPartition` |
| Colouring.IsFiltered | src/app/LaunchesGrid.tsx:49 | no contract; its use is stated by `Colouring.FilteredMembers`, `Colouring.Partition` and `Colouring.NoThresholdNoPartition` |
| Colouring.SaturationOf | src/app/LaunchesGrid.tsx:64-65 | no contract; its properties are stated by `Colouring.SaturationInRange`, `Colouring.SaturationMonotone`, `Colouring.SaturationAtThreshold`, `Colouring.SaturationUncapped`, `Colouring.NoThresholdGivesNaN` and `Colouring.ZeroThresholdGivesNaN` |
| Colouring.RealMin | src/app/LaunchesGrid.tsx:65 | no contract; the cap it applies is stated by `Colouring.SaturationInRange` and `Colouring.SaturationUncapped` |
| Colouring.ColourOf | src/app/LaunchesGrid.tsx:55-67 | no contract; its properties are stated by `Colouring.GoldExactlyForTop` and `Colouring.ColourOfRest` |
| Colouring.Gold | src/app/LaunchesGrid.tsx:57 | no contract; that every top square and only those carry it is stated by `Colouring.GoldExactlyForTop` and `LaunchesGrid.DeriveGoldForTop` |
| Colouring.Paint | src/app/LaunchesGrid.tsx:58-67 | no contract; that a square keeps its record's fields is stated by `Colouring.PaintAll` |
| Colouring.PaintAll | src/app/LaunchesGrid.tsx:54-69 | one square per record, in order, each keeping all the record's fields |
| Colouring.GoldExactlyForTop | src/app/LaunchesGrid.tsx:55-58 | a square is the gold gradient exactly when its record scores above the threshold |
| Colouring.SaturationInRange | src/app/LaunchesGrid.tsx:64-65 | with a positive threshold the saturation is a percentage within `[0, 100]` |
| Colouring.SaturationMonotone | src/app/LaunchesGrid.tsx:64-65 | with a positive threshold, a higher score never gets a lower saturation |
| Colouring.SaturationAtThreshold | src/app/LaunchesGrid.tsx:64-65 | with a positive threshold, a score equal to it gets saturation 100 |
| Colouring.SaturationUncapped | src/app/LaunchesGrid.tsx:64-65 | with a positive threshold, the cap never applies up to it: the saturation is the score as a percentage of the threshold |
| Colouring.ColourOfRest | src/app/LaunchesGrid.tsx:59-67 | a record not above a positive threshold is `hsl(24, points / threshold * 100, 50)`, with that saturation within `[0, 100]` |
| Colouring.HslForTheRest | src/app/LaunchesGrid.tsx:59-67 | the same, for a square in the painted grid |
| Colouring.NoThresholdGivesNaN | src/app/LaunchesGrid.tsx:55-66 | with an undefined threshold every square is `hsl(24, NaN, 50)` |
| Colouring.ZeroThresholdGivesNaN | src/app/LaunchesGrid.tsx:64-66 | with a zero threshold a zero-score square is `hsl(24, NaN, 50)` |
| Colouring.SquaresSaturationMonotone | src/app/LaunchesGrid.tsx:64-66 | with a positive threshold, of two squares at or below it, the higher-scoring one is at least as saturated |
| Colouring.Filtered | src/app/LaunchesGrid.tsx:48-50 | no contract; its properties are stated by `Colouring.FilteredMembers`, `Colouring.FilteredAppend`, `Colouring.Partition` and `LaunchesGrid.FilteredCount` |
| Colouring.FilteredMembers | src/app/LaunchesGrid.tsx:48-50 | a record is in the filtered list exactly when it is on the grid and scores at most the threshold |
| Colouring.FilteredAppend | src/app/LaunchesGrid.tsx:48-50 | filtering keeps the records' order: it distributes over concatenation |
| Colouring.Top | src/app/LaunchesGrid.tsx:55 | no contract; its properties are stated by `Colouring.TopMembers`, `Colouring.Partition` and `Colouring.GoldSquaresAreTop` |
| Colouring.TopMembers | src/app/LaunchesGrid.tsx:55 | a record is in the top list exactly when it is on the grid and scores above the threshold |
| Colouring.Partition | src/app/LaunchesGrid.tsx:48-58 | with a threshold, the filtered and the gold records together are all the grid's records, their lengths add up, and no record is in both |
| Colouring.NoThresholdNoPartition | src/app/LaunchesGrid.tsx:48-58 | with an undefined threshold nothing is filtered and nothing is gold |
| Colouring.GoldSquaresAreTop | src/app/LaunchesGrid.tsx:54-58 | the records behind the squares painted gold are exactly the records above the threshold, in grid order |
| LaunchesGrid.Derive | src/app/LaunchesGrid.tsx:30-72 | no contract; its properties are stated by the `LaunchesGrid.Derive*` rows, `LaunchesGrid.TopIsAtMostFivePercent` and `LaunchesGrid.TwoRecordExample` |
| LaunchesGrid.Threshold | src/app/LaunchesGrid.tsx:41-44 | no contract; its properties are stated by `LaunchesGrid.DeriveThreshold`, `LaunchesGrid.TopIsAtMostFivePercent` and `Percentile.Percentile95IsRankStatistic` |
| LaunchesGrid.DeriveSelectsLatest | src/app/LaunchesGrid.tsx:30-72 | the squares are made from the latest `min(900, n)` records, oldest first, with unchanged fields, drawn from the dataset |
| LaunchesGrid.DeriveThreshold | src/app/LaunchesGrid.tsx:40-45 | the stored threshold exists exactly when at least two records are on the grid; it is then some record's score, of rank `floor(0.95 n)` |
| LaunchesGrid.DeriveGoldForTop | src/app/LaunchesGrid.tsx:54-58 | a square is gold exactly when a threshold exists and the square's score exceeds it, so all top squares share one colour |
| LaunchesGrid.DeriveHslForTheRest | src/app/LaunchesGrid.tsx:59-67 | a square at or below a positive threshold is `hsl(24, points / threshold * 100, 50)`, within `[0, 100]` |
| LaunchesGrid.DeriveNaNWithoutThreshold | src/app/LaunchesGrid.tsx:42-44 | with fewer than two records there is no threshold and every square's saturation is NaN |
| LaunchesGrid.FilteredCount | src/app/LaunchesGrid.tsx:48-50 | the filtered list has as many records as there are scores at most the threshold |
| LaunchesGrid.TopIsAtMostFivePercent | src/app/LaunchesGrid.tsx:47-58 | with two or more records, at least `floor(0.95 n)` records are filtered, and at most `n - floor(0.95 n)` records are above the threshold and at most that many derived squares are gold |
| LaunchesGrid.TwoRecordExample | src/app/LaunchesGrid.tsx:30-72 | for two records scoring 10 and 100, the threshold is 10, the older square is fully saturated and the newer one is gold |

## Left out

- Date parsing: `createdAt` is the millisecond timestamp that `new Date(created_at).getTime()` returns. Parsing the string is not modelled, and neither is an unparseable date, whose NaN comparator result would make the sort's order implementation-defined. The square keeps this timestamp rather than the original string.
- Scores are natural numbers. A negative or fractional `points` value is not modelled.
- Floating point: the saturation is an exact real. Its rounding and the way the number is printed into the `hsl(...)` string are not modelled. The colour is a structured value, not the CSS text.
- The logarithmic scaling at src/app/LaunchesGrid.tsx:51-52 and the `findIndex` lookup at src/app/LaunchesGrid.tsx:61-63 are computed but never used, so they are not modelled.
- Loading the JSON dataset is a parameter of `Derive`. The React state updates, the effect's run-once scheduling, and the initial state before the effect runs are not modelled.
- The legend, the grid markup, the tooltip and its mouse handlers, and the page components src/app/Home.tsx and src/app/page.tsx are presentation, not part of this model.
