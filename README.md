# node-artedi metric store and legacy histogram, in Dafny

node-artedi is a Node.js library that keeps application metrics in memory and
serialises them in the Prometheus text format. Its core is a label-keyed store:

- A **Collector** validates its own static labels. It creates named child
  collectors (Counters, Gauges, Histograms) and keeps them in a registry, so
  asking for the same child again returns the one already there. The model's
  registry holds a descriptor of each child (its kind, name, help and
  labels), not the collector object itself.
- A **Counter** owns a **MetricVector**, which maps the hash of a label set
  to a **Metric** cell. Cells are created on first use and only grow.
- A **Histogram** keeps one Counter per label set. Each Counter has a cell
  per bucket boundary (`le`) and a `+Inf` cell. Boundaries come from the
  log-linear `getOrder` quantisation with five linear steps per power of
  nine, so magnitude i is (1, 3, 5, 7, 9)·9^i. When a new magnitude is
  opened, it is seeded with the count of the boundary below it. A gauge
  keeps the running sum of observed values.
- The library's helpers are `trim`, `hashObj`, `checkValid`,
  `checkValidCollector` and `shallowClone`.
- `examples/artedi_v1_buckets.js` reproduces the fixed boundary table of
  node-artedi 1.x.

The model follows the source's own form:

- Objects whose fields the library updates become classes: `Metric`,
  `MetricVector`, `Counter`, `Collector` and `Histogram`.
- Pure computations become functions, with lemmas about them. These cover
  trimming, hashing, `mergeObjects`, bucket merging, `getOrder` and the
  effect of one observation (`ObserveSpec`).
- Each loop of the source becomes a method with its loop invariants. Most
  such methods are proved equal to a specification function. A few are
  proved against what the source promises directly: `Cut` finds the window
  `Window` describes, and `MetricVector.Samples` returns exactly one sample
  per cell.

The histogram's bucket counts are proved cumulative after every observation
that does not reopen a boundary. The one case the code as written gets
wrong is recorded under Findings. `HistogramSpec.ObserveCorrected` is the
observation with that case corrected. The `Histogram` class itself models
the code as written, so it keeps the overcount.

JavaScript numbers are modelled as `real`. Boundaries are `int`, since
`getOrder` with five steps only produces integers. Label objects are
sequences of key/value pairs with distinct keys, in insertion order (see
`Labels.Set` under Left out for keys that are array indices). Their meaning,
`Labels.ToMap`, lets a later assignment win. md5 is modelled as an
injective digest of the key-sorted pairs. `Date.now()` becomes a `now`
parameter.

## Model

| member | source | states |
|---|---|---|
| Labels.Set | lib/utils.js:29-32 | `obj[k] = v` gives an object whose meaning is the old one with k mapped to v; a new key is appended at the end |
| Labels.Assign | lib/metric_vector.js:104-108 | copying the pairs of one object onto another yields the union of their meanings, the copied pairs winning |
| Labels.AssignSnoc | lib/metric_vector.js:105-107 | copying one more pair is exactly one more assignment |
| Labels.MergeObjects | lib/histogram.js:30-31 | mergeObjects(provided, overrides) copies the pairs of `provided` and then those of `overrides` onto a fresh object; MergePrecedence states its meaning |
| Labels.MergePrecedence | lib/histogram.js:30-31 | mergeObjects(a, b) means a's pairs overridden by b's, an absent argument counting as `{}` |
| Labels.TrimStr | lib/utils.js:62-63 | String.prototype.trim, the slice between SkipSpace and SkipSpaceBack; TrimStrShape, TrimStrTrimmed and TrimStrIdempotent state what it returns |
| Labels.SkipSpace | lib/utils.js:62-63 | the first non-space position from i, with only white space before it |
| Labels.SkipSpaceBack | lib/utils.js:62-63 | the end of the last non-space character, with only white space after it |
| Labels.TrimStrShape | lib/utils.js:62-63 | String.trim returns the string between its leading and trailing white space, and the result neither starts nor ends with white space |
| Labels.TrimStrTrimmed | lib/utils.js:62-63 | what trim returns is trimmed |
| Labels.TrimStrIdempotent | lib/utils.js:62-63 | trimming a trimmed string changes nothing |
| Labels.Trim | lib/utils.js:57-69 | utils.trim folds the pairs into a fresh object with every key and string value trimmed; TrimMeaning, TrimTrimmed and TrimLaterKeyWins state its result |
| Labels.TrimMeaning | lib/utils.js:57-69 | trim(labels) means the trimmed pairs assigned in order onto `{}` |
| Labels.TrimTrimmed | lib/utils.js:57-69 | every key and every string value trim returns is trimmed |
| Labels.TrimLaterKeyWins | lib/utils.js:61-65 | when two keys trim to the same string, the later pair's (trimmed) value is the one kept |
| Labels.StrLtIsOrder | lib/utils.js:47 | the default string sort order is a strict total order |
| Labels.KeyList | lib/utils.js:47 | Object.keys lists each pair's key, in order |
| Labels.SortedKeysFacts | lib/utils.js:47 | the sorted keys are sorted, distinct and exactly the object's keys |
| Labels.PairsFor | lib/utils.js:48-50 | copying the keys in the given order yields each key with its value |
| Labels.HashObj | lib/utils.js:43-52 | hashObj digests the object's pairs sorted by key |
| Labels.Canonical | lib/utils.js:46-50 | the object's pairs in sorted key order, the object hashObj serialises; CanonicalMeaning and CanonicalOrderIndependent state what it holds |
| Labels.CanonicalOrderIndependent | lib/utils.js:43-52 | objects with the same pairs in any order get the same digest |
| Labels.CanonicalMeaning | lib/utils.js:46-50 | the sorted copy holds exactly the object's own pairs |
| Labels.CanonicalInjective | lib/utils.js:43-52 | equal digests imply equal label sets (md5 taken as collision-free) |
| Labels.ShallowClone | lib/utils.js:26-35 | the clone holds the same pairs in the same order |
| Labels.FirstLabelError | lib/utils.js:101-128 | no error exactly when every key matches the name pattern and every value is a string, number or boolean; otherwise the error of the first bad pair |
| Labels.CheckValid | lib/utils.js:93-130 | null for absent labels, otherwise the first bad pair's error, found by a loop that stops reporting after the first one |
| Labels.CheckValidCollector | lib/utils.js:74-88 | no error exactly when the name is a string matching the pattern and the help is a string; a non-string help wins over a bad name |
| Metrics.InitialLabels | lib/metric.js:21-23 | a Metric takes its options' labels, or `{}` without options |
| Metrics.Metric.constructor | lib/metric.js:21-26 | a new cell has value 0 and timestamp 0 |
| Metrics.Metric.Add | lib/metric.js:33-38 | add raises the value by exactly num, without a sign check, and stamps the time |
| MetricVectors.KeyOf | lib/utils.js:43-52 | the cell key of a label set is the digest of its canonical pairs; KeyOfSame states when two sets share it |
| MetricVectors.KeyOfSame | lib/utils.js:43-52 | two label objects share a cell key exactly when they hold the same pairs, in any order |
| MetricVectors.Touch | lib/counter.js:76-83 | finding or creating a cell adds at most that key and changes no value |
| MetricVectors.AddAt | lib/counter.js:55-67 | adding to a cell changes that cell by v and no other |
| MetricVectors.IntLtIsOrder | lib/metric_vector.js:57 | the numeric comparator is a strict total order |
| MetricVectors.SortedIsDistinct | lib/metric_vector.js:52-57 | a sorted boundary list has no duplicates |
| MetricVectors.AppendMissing | lib/metric_vector.js:52-56 | the forEach keeps the old list as a prefix, adds exactly the missing boundaries, and keeps a duplicate-free list duplicate-free |
| MetricVectors.MergeBuckets | lib/metric_vector.js:51-58 | addBuckets pushes the missing boundaries and sorts the list numerically; MergeBucketsMembers, MergeBucketsFacts, MergeBucketsIdempotent and MergeBucketsKeepsPrefix state the result |
| MetricVectors.MergeBucketsMembers | lib/metric_vector.js:51-58 | after addBuckets the list holds exactly the old and the new boundaries |
| MetricVectors.MergeBucketsFacts | lib/metric_vector.js:51-58 | addBuckets on a sorted list leaves it sorted with exactly the old and new boundaries |
| MetricVectors.MergeBucketsIdempotent | lib/metric_vector.js:51-58 | adding boundaries that are all present leaves the list unchanged |
| MetricVectors.MergeBucketsKeepsPrefix | lib/metric_vector.js:51-58 | boundaries added above position j leave the list up to j in place |
| MetricVectors.MetricVector.Init | lib/metric_vector.js:29-45 | a vector starts with no cells and no boundaries |
| MetricVectors.MetricVector.Create | lib/metric_vector.js:29-45 | the static labels are trimmed and must pass checkValid, else construction throws that error |
| MetricVectors.MetricVector.AddBuckets | lib/metric_vector.js:51-58 | the boundary list becomes MergeBuckets of the old one; cells are untouched |
| MetricVectors.MetricVector.GetDefault | lib/metric_vector.js:64-72 | the 'default' cell is created once, with the static labels and value 0, and is returned thereafter; other cells are untouched |
| MetricVectors.MetricVector.Find | lib/metric_vector.js:78-93 | labels deep-equal to the default cell's find it; otherwise the cell at their hash, if any |
| MetricVectors.MetricVector.FindOrderIndependent | lib/metric_vector.js:78-93 | what is found depends only on the pairs, not their order |
| MetricVectors.MetricVector.GetWithLabels | lib/metric_vector.js:78-93 | getWithLabels returns the cell Find names, or nothing, and creates nothing |
| MetricVectors.MetricVector.AppendStatic | lib/metric_vector.js:104-108 | the static labels are copied over the caller's copy |
| MetricVectors.MetricVector.PutCell | lib/metric_vector.js:110 | the cell is stored under its key and nothing else changes |
| MetricVectors.MetricVector.CreateWithLabels | lib/metric_vector.js:98-112 | a new zero cell keyed by the hash of the caller's labels (taken before the static labels are added), labelled with the static labels over them; any cell at that key is replaced |
| MetricVectors.MetricVector.CreateOrGetWithLabels | lib/metric_vector.js:119-127 | the found cell is returned unchanged, otherwise exactly one new zero cell is created |
| MetricVectors.MetricVector.FindOrCreate | lib/metric_vector.js:119-127 | an existing key is the one Find returns |
| MetricVectors.MetricVector.Samples | lib/metric_vector.js:144-168 | prometheus() emits one sample per cell, with the cell's labels and value, and every sample comes from some cell |
| Counters.Counter.Init | lib/counter.js:21-40 | the fields take the given values |
| Counters.Counter.Create | lib/counter.js:21-40 | the static labels are mergeObjects(labels, parentLabels), the parent's labels winning; construction throws when, trimmed, they fail checkValid; the vector starts empty |
| Counters.Counter.Target | lib/counter.js:76-83 | the cell labels(pairs) resolves to: 'default' for absent or empty pairs, otherwise the cell createOrGetWithLabels finds or creates; TargetOrderIndependent and TargetOfEmpty state its properties |
| Counters.Counter.TargetOrderIndependent | lib/counter.js:76-83 | pairs with the same meaning resolve to the same cell |
| Counters.Counter.TargetOfEmpty | lib/counter.js:78-80 | absent or empty pairs resolve to the 'default' cell |
| Counters.Counter.Labels | lib/counter.js:76-83 | labels() adds at most the addressed cell, at 0, and changes no value |
| Counters.Counter.Add | lib/counter.js:55-67 | a negative value throws and changes nothing; otherwise exactly the addressed cell grows by the value |
| Counters.Counter.Increment | lib/counter.js:47-49 | increment raises exactly the addressed cell by 1 |
| Order.Pow9 | lib/histogram.js:305-306 | powers of nine are positive |
| Order.Magnitude | lib/histogram.js:305-311 | each magnitude has five boundaries |
| Order.FirstMagnitudeFrom | lib/histogram.js:305-321 | the magnitude found is the first from i whose last boundary is at least the value; none means the value exceeds every one up to magnitude 10 |
| Order.MagnitudesOverlap | lib/histogram.js:313-315 | magnitude i + 1 starts on the last boundary of magnitude i |
| Order.MagnitudeIncreasing | lib/histogram.js:309-311 | each magnitude is strictly increasing |
| Order.OrderOf | lib/histogram.js:289-322 | the magnitude getOrder returns, the first from 0 whose last boundary is at least the value; OrderNullIff, OrderIsFirst and GetOrder tie it to the source's loops |
| Order.OrderNullIff | lib/histogram.js:298-302 | getOrder returns null exactly when the value exceeds 9^11 |
| Order.OrderIsFirst | lib/histogram.js:316-319 | the magnitude returned is the first whose last boundary is at least the value |
| Order.Target | lib/histogram.js:86-91 | the boundary observe files a value under, the first of its magnitude at or above it; TargetFacts and Ceiling state its properties |
| Order.FirstAtLeast | lib/histogram.js:86-91 | the position of the first boundary the value does not exceed |
| Order.NoBoundaryBetween | lib/histogram.js:305-315 | no boundary of any magnitude lies strictly between two consecutive boundaries of one magnitude |
| Order.Ceiling | lib/histogram.js:86-91 | a value is at or below a boundary exactly when its target boundary is |
| Order.FillMagnitude | lib/histogram.js:306-315 | one pass of the inner loop writes exactly magnitude i and leaves val at 9^(i+1) |
| Order.GetOrder | lib/histogram.js:289-322 | getOrder(value, 5) returns the magnitude OrderOf names, or null exactly when OrderOf has none |
| Sorting.Insert | lib/metric_vector.js:57 | insertion adds one element |
| Sorting.InsertAll | lib/metric_vector.js:57 | inserting a list adds its length |
| Sorting.Sort | lib/metric_vector.js:57 | sorting keeps the length |
| Sorting.SortMembers | lib/metric_vector.js:57 | sorting neither loses nor invents elements |
| Sorting.SortSorted | lib/metric_vector.js:57 | sorting a duplicate-free list under a strict total order yields a sorted list |
| Sorting.SortedUnique | lib/metric_vector.js:57 | two sorted lists with the same elements are equal |
| Sorting.SortOfSorted | lib/metric_vector.js:57 | sorting a sorted list leaves it unchanged |
| HistogramSpec.LeKeyInjective | lib/histogram.js:130 | different boundaries address different cells |
| HistogramSpec.LeKeyNotInf | lib/histogram.js:130-143 | no bucket cell is the '+Inf' cell |
| HistogramSpec.LastBelow | lib/histogram.js:95-99 | `smaller`, when present, is a position of the list whose boundary is below the target |
| HistogramSpec.LastBelowIsLast | lib/histogram.js:95-99 | every boundary after the one `smaller` names is at least the target |
| HistogramSpec.IndexOf | lib/histogram.js:128 | indexOf of a present boundary is a position holding it |
| HistogramSpec.IndexOfIsFirst | lib/histogram.js:128 | indexOf finds the first occurrence |
| HistogramSpec.SeedCells | lib/histogram.js:111-119 | the seeding loop adds the count to the cell of every magnitude boundary other than the smaller one; SeedCellsOthers and SeedCellsAt state it cell by cell |
| HistogramSpec.SeedCellsOthers | lib/histogram.js:111-119 | seeding leaves every cell it does not seed unchanged |
| HistogramSpec.SeedCellsAt | lib/histogram.js:111-119 | seeding adds the count once to every boundary of the magnitude other than the next-smaller one |
| HistogramSpec.IncrementCells | lib/histogram.js:129-138 | the increment pass looks up the cells before the target's position and increments the others; IncrementCellsOthers and IncrementCellsAt state it cell by cell |
| HistogramSpec.IncrementCellsOthers | lib/histogram.js:129-138 | the increment pass leaves cells outside its boundaries unchanged |
| HistogramSpec.IncrementCellsAt | lib/histogram.js:129-138 | the pass creates each boundary's cell and adds one exactly at and after the target's position |
| HistogramSpec.AfterSeeding | lib/histogram.js:101-122 | a known target leaves the state unchanged; a new one merges the magnitude in, seeding only when a boundary lies below |
| HistogramSpec.ObserveSpec | lib/histogram.js:69-143 | observe on one Counter as written: seeding, the increment pass, then '+Inf'; ObserveCounter proves the imperative code equal to it, and ObserveSpecCumulative, InfGainsOne and OvercountSharedBoundary state what it does |
| HistogramSpec.ObserveCorrected | lib/histogram.js:101-143 | the same observation with the seeding limited to boundaries that are new; ObserveCorrectedCumulative states that it keeps the counts cumulative for every value |
| HistogramFacts.MagnitudeBounds | lib/histogram.js:305-311 | the boundaries of magnitude j lie between 9^j and 9^(j+1) |
| HistogramFacts.BoundaryAtMost | lib/histogram.js:298-302 | no boundary exceeds 9^11 |
| HistogramFacts.TargetFacts | lib/histogram.js:86-91 | the target is a boundary of the value's magnitude at or above the value |
| HistogramFacts.CumulativeInitial | lib/histogram.js:37 | a Counter with no observations is cumulative |
| HistogramFacts.CeilingAt | lib/histogram.js:125-138 | for a list of whole magnitudes, a value is at or below a listed boundary exactly when its target is |
| HistogramFacts.UnorderedKeeps | lib/histogram.js:75-83 | a value above every magnitude only counts in '+Inf', and the counts stay cumulative |
| HistogramFacts.ObserveKeeps | lib/histogram.js:69-143 | an observation keeps every bucket cell equal to the number of observations at or below its boundary and '+Inf' equal to their number, for the corrected seeding or a safe observation |
| HistogramFacts.ObserveCorrectedCumulative | lib/histogram.js:101-143 | with seeding restricted to new boundaries, the counts are cumulative after any observation |
| HistogramFacts.InfGainsOneWith | lib/histogram.js:101-143 | neither the seeding nor the increment pass touches the '+Inf' cell, which gains exactly one |
| HistogramFacts.InfGainsOne | lib/histogram.js:140-143 | every accepted observation, safe or not, adds exactly one to the '+Inf' cell, the count printed as _count |
| HistogramFacts.ObserveSpecCumulative | lib/histogram.js:69-143 | as written, the counts stay cumulative after every safe observation |
| HistogramFacts.SmallerStable | lib/histogram.js:95-108 | after addBuckets merges a missing magnitude in, the position `smaller` still names the same boundary, which lies at or below the magnitude's first one |
| HistogramFacts.OvercountSharedBoundary | lib/histogram.js:105-121 | when a new magnitude ends on an already listed boundary, that cell overshoots by exactly the count of the boundary below the target |
| HistogramFacts.OrderOfOne | lib/histogram.js:289-322 | 1 files under boundary 1 of magnitude 0 |
| HistogramFacts.OrderOfThousand | lib/histogram.js:289-322 | 1000 files under boundary 2187 of magnitude 3 |
| HistogramFacts.OrderOfHundred | lib/histogram.js:289-322 | 100 files under boundary 243 of magnitude 2 |
| HistogramFacts.ObserveBuckets | lib/histogram.js:103-104 | the boundary list afterwards is the old one plus the whole magnitude exactly when the target was missing |
| HistogramFacts.TraceFirst | lib/histogram.js:47-148 | observing 1 on a new Counter lists magnitude 0 and counts cumulatively |
| HistogramFacts.TraceSecond | lib/histogram.js:47-148 | observing 1000 next lists magnitude 3 as well, counts still cumulative |
| HistogramFacts.TraceThird | lib/histogram.js:105-138 | observing 100 next leaves boundary 729 at its true count plus the count of boundary 9 |
| HistogramFacts.SharedBoundaryOvercounted | lib/histogram.js:105-121 | observing 1, 1000, 100 leaves boundary 729 at 3 while only 2 values lie at or below it |
| Histograms.Relabel | lib/histogram.js:108 | `pairCopy['le'] = b` addresses boundary b's cell whatever 'le' held before |
| Histograms.FindTarget | lib/histogram.js:86-91 | the loop finds the value's target boundary, which is in the magnitude and at or above the value |
| Histograms.FindSmaller | lib/histogram.js:95-99 | the loop finds the last position whose boundary is below the target |
| Histograms.AddToBoundary | lib/histogram.js:116-117 | exactly boundary b's cell gains the amount |
| Histograms.TouchBoundary | lib/histogram.js:130-134 | boundary b's cell exists afterwards and no value changes |
| Histograms.SeedLoop | lib/histogram.js:111-119 | the loop's cells end up as SeedCells says |
| Histograms.IncrementLoop | lib/histogram.js:127-138 | the loop's cells end up as IncrementCells says over the whole list |
| Histograms.SeedNewMagnitude | lib/histogram.js:101-122 | for a missing target, the Counter ends up as AfterSeeding says |
| Histograms.SeedPhase | lib/histogram.js:86-122 | the target is the value's target boundary and the seeding phase ends up as AfterSeeding says |
| Histograms.IncrementInf | lib/histogram.js:141-143 | the '+Inf' cell gains one and nothing else changes |
| Histograms.ObserveUnordered | lib/histogram.js:75-83 | a value without a magnitude only adds one to '+Inf' |
| Histograms.ObserveCounter | lib/histogram.js:69-143 | the in-place observation leaves the Counter's boundaries and cells as ObserveSpec says, creating only fresh cells |
| Histograms.IncrementPhase | lib/histogram.js:124-143 | after seeding, the position lookup, the increment pass and the '+Inf' count leave the Counter as ObserveSpec says of the state before seeding |
| Histograms.ObserveOrderedValue | lib/histogram.js:85-143 | for a value with a magnitude, the Counter ends up as ObserveSpec says |
| Histograms.CounterKey | lib/histogram.js:158-169 | labels() files a Counter under 'default' for absent or empty pairs, otherwise under the hash of the trimmed pairs; LabelsOrderFree states that the order of the pairs does not matter |
| Histograms.FileCounter | lib/histogram.js:167-185 | a successful lookup returns the key and the key is filed |
| Histograms.FileCounterKeeps | lib/histogram.js:167-185 | filing keeps every Counter and sum, keeps the store valid, and a new Counter starts empty with the given labels |
| Histograms.LabelsOf | lib/histogram.js:156-186 | labels(pairs) on the store: the Counter under CounterKey, filed new with the trimmed pairs under the static labels unless its constructor throws; LabelsKeeps and LabelsIdempotent state the result |
| Histograms.LabelsIdempotent | lib/histogram.js:156-186 | a second labels() with the same pairs returns the same Counter and changes nothing |
| Histograms.LabelsKeeps | lib/histogram.js:156-186 | labels() keeps every Counter and sum, files at most the Counter of the pairs, and a new one starts empty with the trimmed pairs under the static labels |
| Histograms.LabelsOrderFree | lib/histogram.js:165-169 | pairs with the same trimmed meaning reach the same Counter |
| Histograms.ObserveKeepsSorted | lib/histogram.js:101-122 | observing keeps the boundary list sorted and drops no boundary |
| Histograms.Record | lib/histogram.js:69-147 | the observation on the Counter under the key, as ObserveSpec says, plus the value added to the running sum of its label set; RecordKeeps states what changes |
| Histograms.RecordKeeps | lib/histogram.js:69-147 | recording changes only the addressed Counter, keeps its boundaries, adds one to its '+Inf' cell, and adds the value to its own running sum only |
| Histograms.ObserveOf | lib/histogram.js:47-148 | observe on the store: a negative value throws, otherwise the pairs are merged with the static labels and recorded on the Counter labels() returns; ObserveCumulative and ObserveCountsOnce state the result |
| Histograms.ObserveCountsOnce | lib/histogram.js:140-143 | every accepted observation adds exactly one to the '+Inf' cell of its Counter, starting from 0 for a new Counter |
| Histograms.ObserveCumulative | lib/histogram.js:47-148 | a safe observation keeps the addressed Counter's counts cumulative, a new Counter starting from none |
| Histograms.Histogram.constructor | lib/histogram.js:23-39 | the static labels are mergeObjects(parentLabels, labels), the options' labels winning; no Counters, no sums |
| Histograms.Histogram.NewCounter | lib/histogram.js:175-184 | a new Counter under the key, unless its constructor throws, in which case nothing changes; its sum is started unless it is 'default' |
| Histograms.Histogram.DefaultCounter | lib/histogram.js:270-281 | the 'default' Counter is created once with the static labels and returned thereafter |
| Histograms.Histogram.Labels | lib/histogram.js:156-186 | the store changes as LabelsOf says, and not at all on error |
| Histograms.Histogram.Observe | lib/histogram.js:47-148 | a negative value throws and changes nothing; otherwise the store changes as ObserveOf says |
| Histograms.Histogram.RecordOn | lib/histogram.js:69-147 | the store becomes Record of the old one |
| Collectors.BuildError | lib/collector.js:189-198 | the error the kind's constructor throws: the Counter's metric vector rejects the trimmed merged labels; a Histogram checks nothing |
| Collectors.Created | lib/collector.js:168-211 | createChild on a registry: an existing name returns its child or is a type conflict; otherwise the name/help check and the build step may throw, and the new child is registered; CreatedKeeps, CreatedIdempotent and CreatedConflict state the result |
| Collectors.CreatedKeeps | lib/collector.js:168-211 | createChild keeps every registered child, files the returned child under its name, and adds at most that name |
| Collectors.CreatedIdempotent | lib/collector.js:179-211 | asking again for the same name and kind returns the same child and changes nothing |
| Collectors.CreatedConflict | lib/collector.js:205-209 | a name registered with another kind is a type conflict |
| Collectors.Collector.Init | lib/collector.js:53-72 | a collector starts with the given static labels and an empty registry |
| Collectors.Collector.Create | lib/collector.js:53-72 | options' labels are trimmed and must pass checkValid, else the constructor throws; no options means no static labels; the registry starts empty |
| Collectors.Collector.GetCollector | lib/collector.js:234-239 | the child registered under the name, or null exactly when there is none |
| Collectors.Collector.Register | lib/collector.js:218-228 | a taken name is an error and changes nothing; otherwise the child is filed under its name |
| Collectors.Collector.CreateChild | lib/collector.js:168-211 | createChild returns and registers as Created says, with checkValidCollector and the kind's constructor as its checks; any error leaves the registry unchanged |
| Collectors.Collector.CollectUnknown | lib/collector.js:138-141 | an unknown format gives a null error and an empty string |
| ArtediV1Buckets.TableSteps | examples/artedi_v1_buckets.js:26-40 | each table entry is below the next |
| ArtediV1Buckets.StepsIncreasing | examples/artedi_v1_buckets.js:26-40 | increasing steps give a strictly increasing prefix |
| ArtediV1Buckets.TableIncreasing | examples/artedi_v1_buckets.js:26-40 | POSSIBLE_ARTEDI_1_BUCKETS is strictly increasing |
| ArtediV1Buckets.SliceIncreasing | examples/artedi_v1_buckets.js:96 | a slice of the table is non-empty and strictly increasing |
| ArtediV1Buckets.WindowUnique | examples/artedi_v1_buckets.js:77-96 | the window for [min, max] is unique |
| ArtediV1Buckets.WholeTableWindow | examples/artedi_v1_buckets.js:71-75 | the shortcut's whole table is also the window the searches would find |
| ArtediV1Buckets.Cut | examples/artedi_v1_buckets.js:77-94 | the forward and backward searches find the window: first entry at or above min; last entry when max is the last, else the first entry above max |
| ArtediV1Buckets.Artedi1Buckets | examples/artedi_v1_buckets.js:49-97 | defaults, the three assertions as errors, the whole table for the full range, and otherwise the window slice, non-empty and strictly increasing |

## Left out

- lib/gauge.js and lib/provider.js are not part of this model, and the
  Gauge's labels() lives in code this model does not include. The
  histogram's gauge is reduced to a map of running sums, keyed by the hash of
  each Counter's trimmed static labels. The gauge's 'default' cell matching
  is not modelled.
- Collectors.BuildError: a Gauge child never fails to construct in the
  model, and neither does a Histogram child, although its constructor builds
  a Gauge from the same options (lib/histogram.js:38). The Gauge constructor
  is not part of this model.
- Collectors.Collector.CreateChild: the registry keeps a `Child` descriptor,
  and the Counter or Histogram that createChild builds is not kept. So
  "asking again returns the child already there" holds of the descriptor
  only. The identity of the returned collector object, and the metrics it
  has recorded since it was created, are not captured. A Histogram child's
  construction is taken never to throw, for the reason given under
  Collectors.BuildError.
- lib/buckets.js (the newer bucket generators) is outside the modelled core.
- lib/common.js is reduced to the three kind names.
- The Prometheus text serialisation (the `prometheus()` methods and the
  Prometheus branch of `collect`) is left out. That branch dispatches
  asynchronously through a vasync queue, and the text format is string
  formatting. MetricVector's output is modelled only as a list of samples.
- Collectors.Collector.CollectUnknown: requires a format other than
  `prometheus-0.0.4`, since that branch is left out.
- The `Unknown type` branch of createChild cannot occur, because Kind has
  exactly the three kinds.
- The `assert-plus` argument checks are not modelled. The types enforce
  them: strings are strings, objects are label objects, numbers are reals.
- Floating point is modelled as exact reals. NaN, infinities, rounding in
  `val += width`, and the 1.x table entries' binary representations are not
  modelled.
- Labels.HashObj: the digest is taken of the key-sorted pairs themselves,
  not of their `JSON.stringify` text (lib/utils.js:51). Pairs reach the hash
  unvalidated from observe and from Counter.labels. The model therefore
  differs from the source in two ways. First, `JSON.stringify` drops keys
  whose value is `undefined` or a function, so `{method: 'GET', code:
  undefined}` and `{method: 'GET'}` share a cell in the source but not in the
  model. Second, values other than strings, numbers and booleans are all the
  one opaque `Other` value in the model, so `{a: null}` and `{a: {x: 1}}`
  share a cell in the model but not in the source.
- md5 is modelled as an injective digest of the key-sorted pairs. Hash
  collisions are not modelled.
- `Array.prototype.sort` on keys compares strings by character here, not by
  UTF-16 code units.
- Histograms.Histogram.Observe: the histogram keeps each Counter as a value
  (its static labels, boundary list and cells), not as a shared Counter
  object. Aliasing between Counter objects, and their identity, are not
  captured. The in-place update of one Counter object is modelled separately
  by Histograms.ObserveCounter.
- Histograms.Histogram.Observe: getOrder is applied as the pure function
  OrderOf. The source calls it after labels(), which does not change its
  result.
- The `steps` argument of getOrder is fixed at 5, the only value observe
  passes.
- jsprim's `mergeObjects` and `deepEqual` are not part of this model.
  mergeObjects is taken to let its second argument win.
- deepEqual on label values that are neither strings, numbers nor booleans
  compares them as opaque values.
- Histograms.ObserveCumulative and HistogramFacts.ObserveSpecCumulative:
  these hold only for safe observations, because the code as written
  overcounts a boundary shared by two magnitudes. The overcount is proved by
  HistogramFacts.OvercountSharedBoundary and
  HistogramFacts.SharedBoundaryOvercounted.
- The untrimmed `pairCopy` of observe addresses bucket cells by the merged
  pairs as given, while labels() files the Counter under the trimmed pairs.
  Both are modelled as the source writes them.
- `Date.now()` is a `now` parameter.
- Labels.Set and Labels.KeyList: a new key is placed after the existing ones,
  and Object.keys lists keys in that order. JavaScript instead lists keys
  that are array indices (such as "1") first, in ascending numeric order,
  before the other keys in insertion order. That order is not modelled. For
  such keys, the model may therefore differ from the source in two ways.
  First, which of two keys that trim alike is kept by `trim`
  (Labels.TrimLaterKeyWins): for `{" 1": "a", "1": "b"}` the source keeps
  "a" and the model keeps "b". Second, which bad pair
  Labels.FirstLabelError and Labels.CheckValid report first. hashObj is not
  affected, since it sorts the keys.

## Findings

| source | as written | input that shows it | evidently intended | confidence | as-written member | corrected member |
|---|---|---|---|---|---|---|
| lib/histogram.js:111-119 | seeding a newly opened magnitude skips only `buckets[smaller]`, so a last boundary that was already listed is seeded a second time | observe 1, then 1000, then 100 with the same labels: the cell of boundary 729 ends at 3, while only 1 and 100 are at or below 729 | seed only the boundaries that are new, as the comment on lines 112-113 says, so that every bucket counts the observations at or below it | high, proved; not executed | HistogramFacts.SharedBoundaryOvercounted | HistogramFacts.ObserveCorrectedCumulative |
