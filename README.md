# Cas9 protein composition analysis, modelled in Dafny

The script `cas9_Analysis/Cas9.py` reads the amino-acid sequence of the Cas9
protein, keeps the characters that are standard one-letter residue codes,
counts how often each code occurs, and sorts the Kyte-Doolittle hydropathy
score of every residue occurrence into a hydrophobic bucket (score at least
zero) and a hydrophilic bucket (negative score). This project models that
pipeline and proves what it guarantees.

- `tables.dfy` (module `Tables`): the 20-entry residue catalog with its
  three-letter names, and the hydropathy scale. Scores are integers in tenths
  (`A` is 18, `D` is -35). Each table entry has one decimal place, so this is
  exact. The source only compares scores with 0.
- `classifier.dfy` (module `Classifier`): `str.strip()` (`Strip`), the filter
  loop (`Filter`, specified by `Filtered`) and `Counter` (`Count`, specified by
  `Tally`). Also the sum of all counts (`Total`).
- `partitioner.dfy` (module `Partitioner`): the partition loop (`Partition`,
  specified by `Hydrophobic` and `Hydrophilic`).
- `pipeline.dfy` (module `Pipeline`): the four steps in the script's order
  (`Analyze`), plus worked examples.

The two loops of the script that build lists, the filter loop at
`cas9_Analysis/Cas9.py:43-45` and the partition loop at
`cas9_Analysis/Cas9.py:63-67`, become the methods `Filter` and `Partition`, each
with a `while` loop. `Count` renders the pass that `Counter` makes over the
filtered list at `cas9_Analysis/Cas9.py:48` as a `while` loop of its own. Each
loop's invariant says the list or map built so far is the specification
function applied to the prefix read so far. The third loop, at
`cas9_Analysis/Cas9.py:50-51`, only prints (see "Left out"). In the script,
`sequence`, `hydrophobic` and `hydrophilic` are module-level names that each
loop appends to. Here they are the out-parameters of the methods, built up in
local `seq` variables; nothing else reads them while they grow.

The two tables are the constants `Tables.Catalog` and `Tables.Hydropathy`. What
they contain is stated by `CatalogIsTheTwentyCodes`, `TablesShareKeys` and
`HydrophobicCodesAreNonNegative`.

`"XYZ123"` is not an all-invalid input: `Y` is tyrosine, a key of the catalog at
`cas9_Analysis/Cas9.py:32`. So the filter keeps `"Y"`, and its score -1.3 goes
to the hydrophilic bucket (`ScenarioMostlyInvalid`, `ScenarioTyrosine`).
Lower-case letters are dropped, not upper-cased, because the membership test is
case-sensitive (`ScenarioLowercase`).

## Model

| member | source | states |
|---|---|---|
| `Tables.CatalogIsTheTwentyCodes` | cas9_Analysis/Cas9.py:28-33 | a character is a catalog key exactly when it is one of the 20 codes ACDEFGHIKLMNPQRSTVWY, and these are pairwise distinct |
| `Tables.TablesShareKeys` | cas9_Analysis/Cas9.py:28-40 | the name catalog and the hydropathy scale have the same keys, so the lookups at lines 51 and 64 are defined for every residue the filter keeps |
| `Tables.LowercaseIsNotResidue` | cas9_Analysis/Cas9.py:44 | membership is case-sensitive: no lower-case letter passes the filter test |
| `Tables.HydrophobicCodesAreNonNegative` | cas9_Analysis/Cas9.py:35-40 | a score is non-negative exactly for A, C, F, I, L, M and V; no entry of the scale is exactly zero |
| `Classifier.IsSpace` | cas9_Analysis/Cas9.py:26 | the characters `str.strip()` removes: exactly those for which Python's `str.isspace` holds |
| `Classifier.Strip` | cas9_Analysis/Cas9.py:26 | the stripped text is no longer than the input and neither starts nor ends with whitespace |
| `Classifier.StripIsSlice` | cas9_Analysis/Cas9.py:26 | the stripped text is a contiguous slice of the input, and every character outside that slice is whitespace |
| `Classifier.TrimStart` | cas9_Analysis/Cas9.py:26 | the result is a suffix of the input; everything dropped is whitespace; the result is empty or does not start with whitespace |
| `Classifier.TrimEnd` | cas9_Analysis/Cas9.py:26 | the result is a prefix of the input; everything dropped is whitespace; the result is empty or does not end with whitespace |
| `Classifier.TrimStartDropsLead` | cas9_Analysis/Cas9.py:26 | leading whitespace in front of a part that does not start with whitespace is removed, and nothing else |
| `Classifier.TrimEndDropsTrail` | cas9_Analysis/Cas9.py:26 | trailing whitespace after a part that does not end with whitespace is removed, and nothing else |
| `Classifier.StripRemovesPadding` | cas9_Analysis/Cas9.py:26 | stripping a padded text returns exactly the part between the padding |
| `Classifier.Filtered` | cas9_Analysis/Cas9.py:42-45 | the filtered sequence is no longer than the input and holds only catalog codes |
| `Classifier.Filter` | cas9_Analysis/Cas9.py:42-45 | the loop's list equals `Filtered` of the raw characters |
| `Classifier.FilteredAppend` | cas9_Analysis/Cas9.py:42-45 | filtering a concatenation is the concatenation of the filtered parts, so relative order is kept |
| `Classifier.FilteredOfNonResidues` | cas9_Analysis/Cas9.py:42-45 | an input with no catalog code filters to the empty sequence |
| `Classifier.FilteredOfResidues` | cas9_Analysis/Cas9.py:42-45 | an input made only of catalog codes passes unchanged |
| `Classifier.FilteredIdempotent` | cas9_Analysis/Cas9.py:42-45 | filtering a filtered sequence changes nothing |
| `Classifier.FilteredOccurrences` | cas9_Analysis/Cas9.py:42-45 | each catalog code occurs in the filtered sequence exactly as often as in the input, and any other character occurs zero times |
| `Classifier.RetainedPositions` | cas9_Analysis/Cas9.py:42-45 | there are strictly increasing input positions, one per filtered element, such that the k-th filtered element is the character at the k-th position, and every residue position of the input is among them |
| `Classifier.SpaceIsNotResidue` | cas9_Analysis/Cas9.py:26-44 | no character that `strip()` removes is a catalog code |
| `Classifier.FilteredOfSpaces` | cas9_Analysis/Cas9.py:26-44 | a run of whitespace filters to nothing |
| `Classifier.TrimStartIsInvisibleToFilter` | cas9_Analysis/Cas9.py:26-45 | dropping leading whitespace does not change the filtered sequence |
| `Classifier.TrimEndIsInvisibleToFilter` | cas9_Analysis/Cas9.py:26-45 | dropping trailing whitespace does not change the filtered sequence |
| `Classifier.StripIsInvisibleToFilter` | cas9_Analysis/Cas9.py:26-45 | the `strip()` before the filter has no effect on its result |
| `Classifier.TotalRemove` | cas9_Analysis/Cas9.py:48 | the sum of the counts does not depend on the order in which keys are summed |
| `Classifier.TotalBump` | cas9_Analysis/Cas9.py:48 | one increment of the counter raises the sum of all counts by one |
| `Classifier.Tally` | cas9_Analysis/Cas9.py:48 | every key of the counter occurs in the counted sequence and has a count of at least 1 |
| `Classifier.TallyIsOccurrences` | cas9_Analysis/Cas9.py:48 | the keys of the counter are exactly the elements that occur, and each count is that element's number of occurrences, hence at least 1 |
| `Classifier.TallyTotal` | cas9_Analysis/Cas9.py:48 | the counts add up to the length of the counted sequence |
| `Classifier.TallyOfFilteredKeys` | cas9_Analysis/Cas9.py:48-51 | every key of the counter built from the filtered sequence is a catalog code, so the name lookup at line 51 is defined |
| `Classifier.Count` | cas9_Analysis/Cas9.py:48 | the counter equals `Tally` of the sequence; its keys are the elements present, each count is the number of occurrences and at least 1, and the counts sum to the sequence length |
| `Partitioner.Scores` | cas9_Analysis/Cas9.py:63-64 | one score per residue, in order, each the scale's entry for that residue |
| `Partitioner.Hydrophobic` | cas9_Analysis/Cas9.py:63-65 | the hydrophobic bucket holds only scores at least zero, at most one per residue |
| `Partitioner.Hydrophilic` | cas9_Analysis/Cas9.py:63-67 | the hydrophilic bucket holds only negative scores, at most one per residue |
| `Partitioner.Partition` | cas9_Analysis/Cas9.py:60-67 | the loop's two lists equal `Hydrophobic` and `Hydrophilic` of the sequence, and their lengths add up to the sequence length |
| `Partitioner.PartitionConservesLength` | cas9_Analysis/Cas9.py:63-67 | every occurrence lands in exactly one bucket: the bucket lengths sum to the sequence length |
| `Partitioner.PartitionKeepsScores` | cas9_Analysis/Cas9.py:63-67 | the two buckets together hold exactly the multiset of the residues' scores |
| `Partitioner.PartitionAppend` | cas9_Analysis/Cas9.py:63-67 | partitioning a concatenation concatenates each bucket, so both buckets keep sequence order |
| `Partitioner.PositionsGrow` | cas9_Analysis/Cas9.py:63-67 | one more residue adds its position to exactly one of the hydrophobic-code and other-code position sets |
| `Partitioner.BucketSizesByCode` | cas9_Analysis/Cas9.py:35-67 | the hydrophobic bucket has one entry per occurrence of A, C, F, I, L, M or V, and the hydrophilic bucket one per occurrence of any other code |
| `Pipeline.Analyze` | cas9_Analysis/Cas9.py:26-67 | from strip to partition: the sequence is `Filtered` of the raw text and holds only catalog codes; counter keys are catalog codes with counts equal to occurrences, at least 1, present exactly for the codes in the raw text, summing to the sequence length; the buckets partition the sequence by sign |
| `Pipeline.ScenarioPlainResidues` | cas9_Analysis/Cas9.py:42-45 | "AACG" filters to itself |
| `Pipeline.ScenarioPlainCounts` | cas9_Analysis/Cas9.py:48 | "AACG" counts to A:2, C:1, G:1 |
| `Pipeline.ScenarioMostlyInvalid` | cas9_Analysis/Cas9.py:42-45 | "XYZ123" filters to "Y" |
| `Pipeline.ScenarioTyrosine` | cas9_Analysis/Cas9.py:48-67 | "Y" counts to Y:1 and gives the hydrophilic bucket [-13] |
| `Pipeline.ScenarioPaddedStrip` | cas9_Analysis/Cas9.py:26 | "  AI " strips to "AI" |
| `Pipeline.ScenarioPadded` | cas9_Analysis/Cas9.py:26-45 | "  AI " filters to "AI" |
| `Pipeline.ScenarioHydrophobicPair` | cas9_Analysis/Cas9.py:60-67 | "AI" gives the hydrophobic bucket [18, 45] and an empty hydrophilic bucket |
| `Pipeline.ScenarioSingleAspartate` | cas9_Analysis/Cas9.py:42-67 | "D" is kept and gives the hydrophilic bucket [-35] |
| `Pipeline.ScenarioLowercase` | cas9_Analysis/Cas9.py:42-48 | an all-lower-case text filters to nothing and counts to the empty map |

## Left out

- Reading `cas9-seq.txt` (lines 25-26): file I/O. The file's contents are the parameter `raw` of `Analyze`. Python's newline translation when reading in text mode is not modelled.
- The console output (lines 46 and 49-51): printing only. The three-letter names are used only there. `TallyOfFilteredKeys` shows that the name lookup at line 51 is always defined.
- The insertion order of the `Counter` keys: it only decides the order of the printed lines and of the bars in the chart. `Tally` is a Dafny `map`, which has no order.
- The bar chart and the box plot (lines 53-58 and 70-75), and the unused `pandas` import (line 21): rendering and foreign library calls.
- The unused expression `len(hydrophobic)` at line 68: it has no effect.
- Floating-point scores: scores are exact integers in tenths. Only their comparison with 0 at line 64 matters, and it is the same for both representations.
- `Partition` requires every residue to have a hydropathy score. In the source a missing key raises `KeyError`. `TablesShareKeys` and `Filtered` together show this can never happen for the filtered sequence.
