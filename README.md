# PyRelFit relative-fitness pipeline, modelled in Dafny

PyRelFit scores SNPs by how their allele frequency changes between two sampled
generations. A run has three stages, and this project models the per-row
computation of each:

1. **Partitioning.** For one chromosome and one generation, each variant read
   from the VCF becomes a bucket row `(pos, ref, alt, alt_count, total)`. Only
   SNPs that have an alternate allele are kept. The rows are appended to the
   bucket file `tmp.<chrom>.<gen>.csv`.
2. **Pair merge.** For one chromosome and one generation pair, the two bucket
   files are zipped row by row. Each pair of rows gets the relative-fitness
   weight `f2² / (2·f1² − f1·f2²)`, and the largest weight is tracked. The
   per-task maxima are then reduced to one scale per pair.
3. **Normalisation.** Every weight in a result file is divided by its pair's
   scale. The normalised rows can also be sorted into four outlier tiers.

The regex that assigns samples to generations is a parameter
`matches(pattern, sample)`. The VCF reader is replaced by an abstract variant
record. Files are sequences of typed rows. Frequencies and weights are exact
`real`s.

Modules, one per file: `Wrappers` (Option, Result), `Text` (Python's
`str.split`, `str.strip` and `join` on one character), `Records` (the row
types), `Generations`, `Partition`, `PairMerge`, `MaxAggregate`, `Normalize`,
and `Pipeline` (one lemma joining the stages).

Behaviour of the code worth knowing:
- The code clamps nothing. A zero denominator raises `ZeroDivisionError`, and
  the model returns that as an error outcome.
- Weights can be negative (`PairMerge.WeightNegative`), so normalised values
  are at most 1 but are not confined to [0, 1].
- A generation id whose regex matches no sample maps to an empty list. It is
  not an error.
- There is no check that the two zipped buckets have the same length.

## Model

| member | source | states |
|---|---|---|
| `Text.Split` | PyRelFit/pyrelfit.py:44 | `str.split` on one character: always at least one part, and no part contains the separator |
| `Text.JoinSplit` | PyRelFit/pyrelfit.py:44 | joining the parts of a split with the separator gives back the original string |
| `Text.SplitJoin` | PyRelFit/pyrelfit.py:102 | splitting a join of separator-free parts gives back exactly those parts |
| `Text.SplitCount` | PyRelFit/pyrelfit.py:44-46 | a split has one more part than the string has separators, which decides the parity test |
| `Text.StripLeading` | PyRelFit/pyrelfit.py:44 | `lstrip`: the result is a suffix, everything removed is the strip character, and the result does not start with it |
| `Text.StripTrailing` | PyRelFit/pyrelfit.py:44 | `rstrip`: the result is a prefix, everything removed is the strip character, and the result does not end with it |
| `Text.Strip` | PyRelFit/pyrelfit.py:44 | `strip`: the result is the infix of the string that starts where `lstrip` stops and has only the strip character before and after it; it neither starts nor ends with that character, and it is empty iff the string is made of that character only |
| `Generations.Matching` | PyRelFit/pyrelfit.py:52 | a sample is in the list iff it is one of the samples and the pattern matches it, and the list is no longer than the samples |
| `Generations.MatchingAppend` | PyRelFit/pyrelfit.py:52 | the matching samples keep their input order (matching distributes over concatenation) |
| `Generations.Delimited` | PyRelFit/pyrelfit.py:41 | definition of the `startswith("/")`/`endswith("/")` test at :41; its effect is stated by `Generations.ParseGenerations` (the delimiter error) and `Generations.BareSlashIsOdd` |
| `Generations.GenerationParts` | PyRelFit/pyrelfit.py:44 | the number of parts is the number of '/' left after stripping, plus one |
| `Generations.GenerationMap` | PyRelFit/pyrelfit.py:48-55 | the map built pair by pair, later ids overwriting earlier ones; every id in it is one of the parts |
| `Generations.GenerationMapKeys` | PyRelFit/pyrelfit.py:48-55 | the map's ids are exactly the parts at even positions |
| `Generations.LastOccurrenceWins` | PyRelFit/pyrelfit.py:48-55 | an id maps to the samples matched by the regex of its last occurrence, so a later duplicate id overwrites an earlier one |
| `Generations.ParseGenerations` | PyRelFit/pyrelfit.py:40-55 | fails with the delimiter error when the argument does not both start and end with '/'; otherwise fails with the odd-parts error when the parts do not pair up; otherwise returns the id-to-samples map built pair by pair |
| `Generations.BareSlashIsOdd` | PyRelFit/pyrelfit.py:41-46 | "/" (and "//", which also strips to the empty string) passes the delimiter test but fails the parity test, because the empty string splits into one part |
| `Generations.CommaSeparated` | PyRelFit/pyrelfit.py:17-18 | the pair list splits into comma-free items that join back to the argument |
| `Partition.ComputeCounts` | PyRelFit/pyrelfit.py:58-62 | the total is even, non-negative and twice the called samples; the alt count is 0 iff there is no het or hom-alt sample; with consistent tallies, alt ≤ total, with equality iff every called sample is hom-alt |
| `Partition.Kept` | PyRelFit/pyrelfit.py:71-72 | definition of the two `continue` tests at :71-72; its effect is stated by `Partition.BucketRowsMembership` (a row is written iff a kept variant produces it) and `Partition.BucketRowsLength` (one row per variant iff every variant is kept) |
| `Partition.RowOf` | PyRelFit/pyrelfit.py:74-80 | the row written for a kept variant: its POS, REF and first ALT, a total of twice the called samples that is even, a non-negative alt count, and alt ≤ total under consistent tallies |
| `Partition.BucketRows` | PyRelFit/pyrelfit.py:70-80 | the rows one task appends, in stream order; never more rows than variants |
| `Partition.FilterSplitUnit` | PyRelFit/pyrelfit.py:69-80 | the bucket, which is opened for append, ends as its old rows followed by one row per kept variant, in stream order |
| `Partition.BucketRowsAppend` | PyRelFit/pyrelfit.py:70-80 | rows are emitted in source order: the rows of a concatenated stream are the rows of each part, concatenated |
| `Partition.BucketRowsMembership` | PyRelFit/pyrelfit.py:71-80 | a row is written iff some SNP variant with a non-empty ALT produces it as `(POS, REF, ALT[0], alt_count, total)` |
| `Partition.BucketRowsLength` | PyRelFit/pyrelfit.py:71-72 | at most one row per variant, with exactly one per variant iff every variant is kept |
| `Partition.BucketRowsWellFormed` | PyRelFit/pyrelfit.py:58-62 | every written row has an even, non-negative total and a non-negative alt count, and alt ≤ total when every variant's tallies are consistent |
| `PairMerge.Frequency1` | PyRelFit/pyrelfit.py:116 | generation 1's frequency: 0 for an empty total, otherwise the value that times the total gives the alt count |
| `PairMerge.Frequency2` | PyRelFit/pyrelfit.py:117 | generation 2's frequency: the pseudo-frequency 1e-8 for an empty total, otherwise the same as generation 1's formula |
| `PairMerge.FrequencyInUnitInterval` | PyRelFit/pyrelfit.py:116-117 | a count within a positive total gives a frequency in [0, 1], the same for both generations |
| `PairMerge.Weight` | PyRelFit/pyrelfit.py:119 | f1 = 0 gives weight 0; the weight is undefined (division by zero) iff f1 ≠ 0 and the denominator is 0; otherwise the weight times the denominator is f2² |
| `PairMerge.WeightUndefinedIff` | PyRelFit/pyrelfit.py:119 | for f1 ≠ 0, the division raises exactly when f2² = 2·f1 |
| `PairMerge.WeightNegative` | PyRelFit/pyrelfit.py:119 | for f1 > 0 and f2² > 2·f1 the weight is defined and negative; nothing clamps it |
| `PairMerge.RowWeight` | PyRelFit/pyrelfit.py:116-119 | the weight of a pair of bucket rows: 0 when generation 1 has no alt allele or no called allele, and undefined exactly when f1 ≠ 0 and f2² = 2·f1 for the rows' frequencies |
| `PairMerge.AbsentInGeneration1` | PyRelFit/pyrelfit.py:116-119 | no alternate allele or no called allele in generation 1 gives weight 0, whatever generation 2 holds |
| `PairMerge.ScenarioWeight` | PyRelFit/pyrelfit.py:116-119 | counts 2/10 and 4/8 give f1 = 0.2, f2 = 0.5 and weight 25/3 |
| `PairMerge.PseudoFrequencyScenario` | PyRelFit/pyrelfit.py:117-119 | a zero generation-2 total substitutes 1e-8, which gives a weight above 0 and below 2e-15 |
| `PairMerge.ZeroDenominatorReachable` | PyRelFit/pyrelfit.py:119 | counts the partitioner can produce (1/2 against 2/2) make the denominator 0, so the division raises |
| `PairMerge.NegativeWeightReachable` | PyRelFit/pyrelfit.py:119 | counts 1/10 against 9/10 give a negative weight, which nothing clamps |
| `PairMerge.MergeCorrectUnique` | PyRelFit/pyrelfit.py:103-124 | the merge contract determines the outcome: rows and maximum, or failing index and rows written |
| `PairMerge.MergeRows` | PyRelFit/pyrelfit.py:103-122 | zip truncates to min(\|s1\|, \|s2\|); row i has stream 1's pos/ref/alt and the weight of pair i; the max is ≥ 0, ≥ every weight, and 0 or attained; if some pair divides by zero, the outcome is the first such index and the rows written before it |
| `PairMerge.ProcessPair` | PyRelFit/pyrelfit.py:100-124 | a pair id that does not split on '_' into two ids is an error; a missing bucket for gen1, then gen2, is an error; otherwise the header `Pos,Ref,Alt,RF`, the merge result, and the pair id unchanged |
| `PairMerge.PairIdSplits` | PyRelFit/pyrelfit.py:102 | an id `g1_g2` built from '_'-free ids splits back into `g1` and `g2` |
| `MaxAggregate.Max` | PyRelFit/pyrelfit.py:37 | Python's `max` of two values: at least each of them and equal to one of them |
| `MaxAggregate.ListToDictMax` | PyRelFit/pyrelfit.py:34-38 | the map has exactly the keys of the list; each key's value is ≥ every value paired with it and equal to one of them |
| `MaxAggregate.KeyedMaxStep` | PyRelFit/pyrelfit.py:36-38 | folding one more `(value, key)` pair into a keyed maximum (insert if new, else keep the larger) gives the keyed maximum of the extended list |
| `MaxAggregate.KeyedMaxUnique` | PyRelFit/pyrelfit.py:34-38 | that characterisation fixes the map, so the result does not depend on how the loop got there |
| `MaxAggregate.TwoChromosomeScenario` | PyRelFit/pyrelfit.py:132-134 | two chromosomes reporting 5.0 and 8.333 for one pair give that pair the scale 8.333 |
| `Normalize.TierOf` | PyRelFit/pyrelfit.py:165-174 | the if/elif chain lands in gt_8 iff v > 0.8, gt_6 iff 0.6 < v ≤ 0.8, gt_4 iff 0.4 < v ≤ 0.6, gt_2 iff 0.2 < v ≤ 0.4, and no tier iff v ≤ 0.2 |
| `Normalize.IsNoOp` | PyRelFit/pyrelfit.py:139 | definition of the early-return test at :139; its effect is stated by `Normalize.NormalizeFile` (a scale of 0 or 1 leaves the file unchanged and yields no tiers) |
| `Normalize.Scaled` | PyRelFit/pyrelfit.py:160 | a row with pos, ref and alt kept and a last field that times the scale gives the old weight |
| `Normalize.TierRows` | PyRelFit/pyrelfit.py:165-174 | the rows of one tier in file order: each is a row of the file whose value falls in that tier, and there are no more of them than rows |
| `Normalize.NormalizeFile` | PyRelFit/pyrelfit.py:137-176 | a scale of 0 or 1 changes nothing and yields no tiers; otherwise the header and row order are kept, each row's last field becomes value / scale and nothing else changes, and with outliers enabled the four tier lists are the tiers of the normalised rows |
| `Normalize.TierRowsAppend` | PyRelFit/pyrelfit.py:165-174 | each tier list keeps file order |
| `Normalize.TierRowsMembership` | PyRelFit/pyrelfit.py:165-174 | a row is in a tier list iff it is a row of the file whose value falls in that tier |
| `Normalize.TiersPartitionOutliers` | PyRelFit/pyrelfit.py:165-174 | the four tier lists together hold, as a multiset, exactly the rows whose normalised value exceeds 0.2 |
| `Normalize.TiersDisjoint` | PyRelFit/pyrelfit.py:165-174 | no row is in two different tiers |
| `Normalize.ScaledByBound` | PyRelFit/pyrelfit.py:160 | dividing by a positive scale that bounds the weight gives at most 1, keeps a non-negative weight non-negative, and turns a weight equal to the scale into exactly 1 |
| `Normalize.ScenarioNormalized` | PyRelFit/pyrelfit.py:160 | the weight 25/3 divided by the scale 25/3 is 1 |
| `Pipeline.GlobalScaleBoundsRows` | PyRelFit/pyrelfit.py:127-134 | a pair's aggregated scale is ≥ the max of every chromosome's file for it, hence ≥ every weight there, and normalising with it gives values ≤ 1 |

## Left out

- VCF decoding (`cyvcf2.VCF`, `seqnames`, `samples`) and the chromosome regex filter of `filter_and_split` are not modelled. They belong to a foreign library. A variant is an abstract record, already restricted to one generation's samples.
- File I/O is not modelled because it is filesystem work. Files are sequences of rows, and this leaves out: CSV text and `int`/`float` parsing, the `.tmp` file and `os.replace`, `glob` discovery of files and chromosomes, `os.makedirs` and `remove_dir_recursive`.
- The `multiprocessing.Pool` fan-out and the stage barriers are not modelled. `filter_and_split`, `merge_and_compute` and `normalise` appear only through their data flow, in `Pipeline.GlobalScaleBoundsRows`.
- The regex engine is a parameter. `re.error` for an invalid pattern is not modelled.
- `filter_split_unit` catches exceptions and prints them to stderr. The model has no failure path there. A task that fails part-way leaves a prefix of the rows, and that is not captured.
- IEEE floats are not modelled: there is no rounding, overflow, infinity or NaN. `list_to_dict_max`'s `-inf` default is modelled as "the first value seen for a key".
- NormalizeFile: `scale_list.get(p)` returning `None` for an unknown pair is not modelled, because the scale is a `real`. An empty result file, where `next(reader)` raises, is not modelled either, because a `Table` always has a header. Writing the tier lists to files, each under the source header, is left to I/O.
- Plotting (matplotlib), the click CLI, the global `GRAPHICS_ENABLED`/`OUTLIERS_ENABLED` toggles and the timing prints are not modelled. Outlier output is a parameter of `NormalizeFile`.
- PyRelFit/__main__.py is only a CLI entry shim and is not part of this model.
