# PISCES peptide modelling — a verified model of the feature and training-set core

This project models in Dafny the deterministic core of the `ppm` package. That
package scores peptides identified by PISCES (immunopeptidomics identifications
remapped to canonical, cryptic and spliced origins). The modelled parts are:

- **Feature extraction** for canonical and cryptic peptides (`create_features`):
  - occurrence search in the I→L folded protein;
  - codon slices;
  - the backward codon scan that stops at the first stop codon;
  - the Kozak window score;
  - the stop distances;
  - the `*`-fragment flank rows.
  - Also: the positive-before-negative deduplication in `process_stratum` and the protein splitting of background peptides.
- **Spliced junction features** (`create_spliced_features`):
  - junction indices and `X` sentinels;
  - one-hot residue flags;
  - distances to canonical peptides;
  - the negative anti-join and deduplication;
  - the batch numbering of `add_features_mp`.
- **The Kozak similarity scorer** and its 23 × 5 weight table, with exact reals.
- **The constant tables:** residues, residue groups, start and stop codons, cryptic strata, feature lists.
- **Background bookkeeping:**
  - per-position residue frequencies and dataset ratios;
  - the assembly and deduplication of random peptides;
  - dataset eligibility;
  - the minimum count;
  - the sample goal and its random rounding;
  - the peptide-pool filters;
  - the reading-frame merge.
- **Training-set selection:**
  - shuffle-then-modulo cross-validation groups;
  - the out-of-fold prediction loop;
  - keep-best-per-peptide deduplication;
  - the self-training filter and round loop of the spliced model.
- **PISCES database assembly:**
  - list union;
  - space-separated list parsing and count columns;
  - stratum and discoverability labelling;
  - the contaminant-or-error rule for duplicated peptides;
  - the details dispatch;
  - the identification filters.

The modules are:

| module | models |
|---|---|
| `Common` | Python slicing and indexing, `drop_duplicates`/`unique`, list comprehensions, `Option`/`Result` |
| `Constants` | `ppm/constants.py` |
| `Kozak` | `ppm/kozak_scoring.py` |
| `Occurrences` | `re.finditer` with a literal pattern, `str.replace('I', 'L')`, `str.split` |
| `Preprocess` | `ppm/preprocess.py` |
| `PreprocessSpliced` | `ppm/preprocess_spliced.py` |
| `PreprocessUtils` | `ppm/preprocess_utils.py` |
| `Background` | `ppm/create_background.py` |
| `Train` | `ppm/train.py` |
| `TrainSpliced` | `ppm/train_spliced.py` |
| `PiscesDb` | `ppm/create_pisces_db.py` |

Parameters stand in for things outside the model:

- **The classifier.** XGBoost fitting and prediction are a function `(training rows, row) -> probability`. Feature importances are a function of the training rows.
- **Randomness.**
  - A shuffle is any permutation of the distinct values.
  - The uniform draw of `get_sampled_negative_peps` is a real `r`.
  - The per-position residue draws are given as columns.
  - The 10% quantile is a function of the scores.
- **File reading.** Tables are sequences of records. A table that cannot be read is `None`.
- **Hydrophobicity (GRAVY).** Biopython's computation is a function that may fail.

Python exceptions are `Err` values of a `Result`. They cover an out-of-range index, a division by zero, a missing dictionary key or pandas column (`KeyError`), a polars expression on a missing column (`ColumnNotFoundError`), a failed `int()` and other `ValueError`s.

Some quirks of the code are kept as written and stated in lemmas:

- `create_features` does not fold the peptide itself.
- `kozakScore` is one value per call: the last one set.
- The lower-bound checks of the spliced junction are asymmetric: `> 0` for `p2` and `p_neg_1_prime`, `>= 0` for the `p_minus_*_prime` flanks.
- `sr2_localDisorder` is averaged over `len(sr1)` positions.
- The sample goal takes the ceiling when `r > frac(goal)`.
- Each pass of the spliced self-training uses the previous round's column.

## Model

| member | source | states |
|---|---|---|
| Constants.AminoAcidsDistinct | ppm/constants.py:28 | the 20 residue letters are pairwise distinct |
| Constants.GroupFlags | ppm/constants.py:29-35 | one 0/1 flag per residue group, 1 exactly when the letter is a member of that group |
| Constants.GroupsPartitionResidues | ppm/constants.py:28-35 | a letter lies in exactly one of the five groups when it is a residue, and in none otherwise |
| Constants.GroupFlagsOneHot | ppm/constants.py:28-35 | the group flags of a letter sum to 1 for a residue and to 0 otherwise |
| Constants.XInNoGroup | ppm/constants.py:29-35 | the sentinel `X` belongs to no residue group |
| Constants.CodonTables | ppm/constants.py:25-108 | start and stop codons are distinct 3-letter words over A, C, G, U, and no start codon is a stop codon |
| Constants.StratumCode | ppm/constants.py:96-103 | a stratum's code exists exactly for the six cryptic strata, and it is that stratum's first position in the list |
| Constants.StratumCodeBijective | ppm/constants.py:96-103 | there are six distinct cryptic strata, and the code of the k-th is k |
| Constants.PerResidue | ppm/constants.py:72-77 | a per-residue feature list has one name per residue |
| Constants.UpstreamFeatures | ppm/constants.py:62 | there is one `{codon}_upstream` feature per start codon |
| Constants.TrainFeatures | ppm/constants.py:38-85 | feature lists exist exactly for 'canonical', 'cryptic' and 'spliced' |
| Constants.SplicedFeatureLists | ppm/constants.py:153-172 | `SPLICED_FEATURES` equals the spliced training features, has 8 + 2·20 names, and includes `p1_a` and `p1_prime_a` for every residue a |
| Constants.StratumSpecificFeatures | ppm/constants.py:127-140 | the lookup succeeds exactly for 'canonical', 'spliced' and every cryptic stratum |
| Constants.TranscriptFeatures | ppm/constants.py:111-114 | the lookup succeeds exactly for K562 and B721.221, giving non-empty lists of distinct names |
| Kozak.WeightShape | ppm/kozak_scoring.py:7-31 | the weight table has 23 rows of 5 weights |
| Kozak.WeightValues | ppm/kozak_scoring.py:7-31 | every weight is non-negative; the column for unknown bases and the three rows of the centre codon are zero |
| Kozak.RowMaximaAreMaxima | ppm/kozak_scoring.py:62 | each row maximum bounds every weight of its row and is one of them |
| Kozak.MaxScoreIsSumOfRowMaxima | ppm/kozak_scoring.py:62 | the normalising constant is the sum of the 23 row maxima |
| Kozak.BaseIndex | ppm/kozak_scoring.py:44-56 | the base index is below 5, and it is 4 exactly for letters other than A, T, G, C |
| Kozak.KozakScore | ppm/kozak_scoring.py:37 | the score is defined exactly for a 23-letter window; any other length fails the assertion |
| Kozak.KozakSimilarityScore | ppm/kozak_scoring.py:33-68 | the normalising loops and the scoring loop compute the score of the window |
| Kozak.PartialScoreBounds | ppm/kozak_scoring.py:58-62 | each partial sum of weights lies between 0 and the matching partial sum of row maxima |
| Kozak.KozakScoreInUnitInterval | ppm/kozak_scoring.py:64-67 | the score of every 23-letter window lies in [0, 1] |
| Kozak.PartialScoreRespectsNormalisation | ppm/kozak_scoring.py:39-42 | windows equal after upper-casing and U→T have equal partial sums |
| Kozak.KozakScoreIgnoresCaseAndUracil | ppm/kozak_scoring.py:39-42 | lower/upper case and U/T give identical scores |
| Kozak.PartialScoreIgnoresPosition | ppm/kozak_scoring.py:7-31 | changing a centre-codon letter, or one unknown letter for another, leaves the partial sums unchanged |
| Kozak.KozakScoreIgnoresCentreAndUnknown | ppm/kozak_scoring.py:7-31 | the centre codon and unknown bases do not change the score |
| Kozak.PartialScoreOfConstant | ppm/kozak_scoring.py:58-60 | an all-A window sums the A column |
| Kozak.KozakScoreAllAdenine | ppm/kozak_scoring.py:58-64 | an all-A window scores the A-column sum over the maximum score |
| Occurrences.FoldIL | ppm/preprocess.py:145 | the folded sequence has the same length and no I; every I becomes L and other letters stay |
| Occurrences.FoldILIdempotent | ppm/preprocess.py:145 | folding twice equals folding once |
| Occurrences.FoldILSlice | ppm/preprocess.py:218 | folding a slice equals slicing the folded sequence |
| Occurrences.FindFrom | ppm/preprocess.py:157-159 | every match found from index i starts at or after i and is a real match; consecutive matches do not overlap |
| Occurrences.FindAll | ppm/preprocess.py:157-159 | every reported position starts a copy of the pattern; positions increase by at least the pattern length |
| Occurrences.FindFromLeftmost | ppm/preprocess.py:157-159 | every match at or after i is reported or overlaps a reported match that starts before it |
| Occurrences.FindAllLeftmost | ppm/preprocess.py:157-159 | the scan is leftmost: a match that is not reported overlaps an earlier reported one |
| Occurrences.ContainsIffFound | ppm/preprocess.py:218-221 | `peptide in fragment` holds exactly when the scan reports some match |
| Occurrences.FindAllAroundSeparator | ppm/preprocess.py:215-221 | around a separator absent from the pattern, the matches are those on the left, then those on the right shifted past the separator |
| Occurrences.Split | ppm/preprocess.py:215 | `split` yields at least one piece, and no piece contains the separator |
| Occurrences.JoinSplit | ppm/preprocess.py:215 | joining the pieces with the separator gives back the string |
| Occurrences.TokensIsFilteredSplit | ppm/create_pisces_db.py:123 | the tokens of a string are exactly `[y for y in s.split(' ') if y]`: the non-empty pieces between single spaces, in order |
| Occurrences.SplitFoldIL | ppm/preprocess.py:215-220 | splitting the folded protein gives the folded fragments |
| Occurrences.IndexOfFoldIL | ppm/preprocess.py:203 | folding does not move the first separator |
| Occurrences.FindAllBySplit | ppm/preprocess.py:215-221 | the matches in the `*`-fragments, shifted to protein coordinates, are exactly the matches in the whole protein |
| Preprocess.Codon | ppm/preprocess.py:176 | a codon has at most 3 letters and is the triplet of its residue when that lies inside the RNA |
| Preprocess.StopBelow | ppm/preprocess.py:175-178 | the backward scan halts at the highest stop codon at or below the start, or runs to index 0 |
| Preprocess.NearestAug | ppm/preprocess.py:179-187 | the nearest AUG in the scanned stretch, with no AUG between it and the occurrence; None when there is none |
| Preprocess.WindowScore | ppm/preprocess.py:188-191 | a window score is computed exactly when 3·idx > 10 and 3·idx + 13 < len(rna) |
| Preprocess.ScanStep | ppm/preprocess.py:174-191 | extending the scanned stretch by one codon updates the flags, the distance and the Kozak score as the loop body does |
| Preprocess.AugIsFirstStartCodon | ppm/constants.py:25-27 | AUG is the first start codon and no other start codon equals it |
| Preprocess.ScanCodon | ppm/preprocess.py:179-191 | one codon sets its start flag, the first AUG distance and, in range, the Kozak score |
| Preprocess.ScanPosition | ppm/preprocess.py:175-191 | the inner loop leaves the flags, the distance and the score of the scanned stretch |
| Preprocess.ScanUpstream | ppm/preprocess.py:164-191 | the nested loop yields the upstream flag table, the start distances and the score of the last occurrence that set one |
| Preprocess.UpstreamScanMeaning | ppm/preprocess.py:174-187 | a start flag is 1 iff its codon occurs before the first stop codon; `start_dist` is the distance back to the nearest such AUG, and it is ≥ 0 |
| Preprocess.PositionKozakMeaning | ppm/preprocess.py:188-191 | a score is set only by an occurrence's nearest AUG in range; its window has exactly 23 letters and the score lies in [0, 1] |
| Preprocess.KozakInCarries | ppm/preprocess.py:173-191 | the single `kozakScore` is overwritten exactly when an occurrence sets one |
| Preprocess.RowsOfFragment | ppm/preprocess.py:218-221 | one flank row per match in the folded fragment |
| Preprocess.FragmentMatches | ppm/preprocess.py:218-231 | the per-fragment loop body builds the rows of that fragment |
| Preprocess.FragmentFeatures | ppm/preprocess.py:215-231 | the fragment loop builds the rows of every `*`-fragment in order |
| Preprocess.RowAtMeaning | ppm/preprocess.py:217-231 | flanks are read from the fragment padded with X (so X at a fragment end); the end flag is 1 iff the downstream residue is X; the group flags sum to 1 for a residue |
| Preprocess.FragmentRowsAligned | ppm/preprocess.py:215-231 | for a peptide without `*` there is one fragment row per occurrence position, as the joint explode needs |
| Preprocess.NucleotideFractions | ppm/preprocess.py:154-155 | four nucleotide fractions, each in [0, 1] |
| Preprocess.OccurrenceSlices | ppm/preprocess.py:160-162 | `il_peptide` at each occurrence has the peptide's length and folds to the peptide |
| Preprocess.OccurrencesWithin | ppm/preprocess.py:157-162 | every occurrence ends inside the protein |
| Preprocess.CodonsAt | ppm/preprocess.py:167-172 | `endCodon`/`postCodon` are the codons of the last residue and of the next one, and are full triplets exactly when inside the RNA |
| Preprocess.RelativePositions | ppm/preprocess.py:193-195 | each relative position is the start over the protein length, in [0, 1) |
| Preprocess.LocalDisorder | ppm/preprocess.py:196-200 | the mean disorder over each occurrence, undefined (NaN) exactly when the slice is empty |
| Preprocess.StopDistance | ppm/preprocess.py:202-206 | the distance to the first `*` after the end, or to the end of the sequence; never more than the remaining length |
| Preprocess.StopDistances | ppm/preprocess.py:202-206 | one stop distance per occurrence, measured from its end |
| Preprocess.StopDistanceUnfolded | ppm/preprocess.py:202-206 | the distance measured on the folded protein is the distance to the next `*` of the original protein |
| Preprocess.CreateFeatures | ppm/preprocess.py:141-233 | `create_features` returns or raises as specified |
| Preprocess.FeaturesErrors | ppm/preprocess.py:149-155 | the call fails exactly when the hydrophobicity fails, the peptide is empty (IndexError) or the RNA is empty (ZeroDivisionError) |
| Preprocess.FeaturePositions | ppm/preprocess.py:157-159 | every position starts a copy of the peptide in the folded protein; positions do not overlap; every other match overlaps a reported one |
| Preprocess.FeaturesExplodeAligned | ppm/preprocess.py:160-231 | every per-occurrence list has one entry per position; the fragment lists do too when the peptide has no `*` |
| Preprocess.FeatureCTermOneHot | ppm/preprocess.py:152-153 | the C-terminal group flags sum to 1 when the last residue is a residue letter |
| Preprocess.CombineSamplesPrefersPositives | ppm/preprocess.py:61-67 | after concatenating positives then negatives and keeping the first row per (peptide, protein): keys are unique, every positive pair survives as a positive, every negative pair survives |
| Preprocess.PositiveKept | ppm/preprocess.py:63-67 | the row kept for a positive's key is itself labelled positive |
| Preprocess.ExplodeProteinsClean | ppm/preprocess.py:131-135 | exploded protein identifiers are non-empty and space-free, and come from an input peptide |
| Preprocess.ExplodeProteinsOfRow | ppm/preprocess.py:131-135 | a row explodes into one row per non-empty piece of its `proteins.split(' ')`, in order, each with the row's peptide, or into one row with a null protein when there is none |
| Preprocess.ExplodeProteinsAppend | ppm/preprocess.py:131-135 | the explode works row by row: the output for a concatenation is the outputs of the parts, in order |
| PreprocessSpliced.Indicator | ppm/preprocess_spliced.py:211-215 | the indicator vector is 1 at the positions of the letter and 0 elsewhere |
| PreprocessSpliced.IndicatorSum | ppm/preprocess_spliced.py:211-215 | over a distinct alphabet the indicator sums to 1 for a member and 0 otherwise |
| PreprocessSpliced.OneHotMeaning | ppm/preprocess_spliced.py:211-215 | one flag per residue, 1 exactly for the residue read |
| PreprocessSpliced.OneHotSum | ppm/preprocess_spliced.py:211-215 | the 20 flags sum to 1 for a residue and to 0 for X |
| PreprocessSpliced.OneHotColumns | ppm/preprocess_spliced.py:211-215 | the loop over residues fills each junction position's flags |
| PreprocessSpliced.AllStartsMeaning | ppm/preprocess_spliced.py:254-258 | a start is listed exactly when it is a match start of some canonical peptide in the folded protein |
| PreprocessSpliced.CanonicalStarts | ppm/preprocess_spliced.py:254-258 | the loop collects all canonical match starts |
| PreprocessSpliced.MinDistance | ppm/preprocess_spliced.py:259-264 | the minimum absolute distance bounds every distance and is attained |
| PreprocessSpliced.MinDistanceMeaning | ppm/preprocess_spliced.py:259-264 | the same, stated over membership in the start list |
| PreprocessSpliced.CanDistsErrors | ppm/preprocess_spliced.py:250-264 | the distances fail (ValueError from `min` of an empty list) exactly when canonical peptides are given and none occurs |
| PreprocessSpliced.CanDistsMeaning | ppm/preprocess_spliced.py:250-264 | both distances are None iff there are no canonical peptides; otherwise each is the least \|index − start\| over all canonical starts |
| PreprocessSpliced.CanonicalDistances | ppm/preprocess_spliced.py:250-264 | the method computes the distances as specified |
| PreprocessSpliced.SplicedOk | ppm/preprocess_spliced.py:183-185 | a successful call re-reads sr1 and sr2 from the protein at their indices, and its columns are those of the re-read reactants |
| PreprocessSpliced.ColumnsJunction | ppm/preprocess_spliced.py:190-246 | each junction residue is read at its index or is X, per the bound checks; `{a}_p1` equals `p1_{a}` and `{a}_p1_prime` equals `p1_prime_{a}` |
| PreprocessSpliced.ColumnsLowerFlankAsymmetry | ppm/preprocess_spliced.py:206-220 | at sr2 index 1, `p_minus_1_prime` is read but `p_neg_1_prime` is X; at p2 index 0, `p2` is X |
| PreprocessSpliced.ColumnsFlagsOneHot | ppm/preprocess_spliced.py:211-215 | the p1, p_neg_1 and p1_prime flags sum to 1 for a residue and to 0 for X |
| PreprocessSpliced.ColumnsDisorder | ppm/preprocess_spliced.py:271-276 | both disorder means are over `len(sr1)` positions and are NaN exactly when their index is past the predictions |
| PreprocessSpliced.FillSplicedColumns | ppm/preprocess_spliced.py:187-276 | the method fills every column as specified |
| PreprocessSpliced.CreateSplicedFeatures | ppm/preprocess_spliced.py:180-278 | `create_spliced_features` returns or raises as specified |
| PreprocessSpliced.SplicedFeaturesErrors | ppm/preprocess_spliced.py:180-264 | the call succeeds exactly when both indices are inside the protein, sr1 is a non-empty proper prefix, and some canonical peptide occurs (or none is given) |
| PreprocessSpliced.WithoutPositives | ppm/preprocess_spliced.py:91-94 | the anti-join keeps exactly the candidates whose peptide is not a positive |
| PreprocessSpliced.SplicedNegativesClean | ppm/preprocess_spliced.py:91-130 | negatives avoid positive peptides, are unique on (peptide, protein, sr1_Index, sr2_Index), and every such location survives |
| PreprocessSpliced.BatchIdOf | ppm/preprocess_spliced.py:140-142 | row b·1000 + k (k < 1000) is in batch b |
| PreprocessSpliced.BatchesPartitionRows | ppm/preprocess_spliced.py:140-145 | every row is in exactly one batch, its own; batches hold 1 to 1000 consecutive rows |
| PreprocessUtils.CheckDataset | ppm/preprocess_utils.py:121-129 | K562 accepts names starting "K562"; B721.221 accepts "Sarkizova"/"Abelin" names; any other cell line raises ValueError |
| PreprocessUtils.CheckDatasetExclusive | ppm/preprocess_utils.py:124-127 | no dataset is accepted for both cell lines |
| PreprocessUtils.CheckedDatasetHasBackground | ppm/preprocess_utils.py:124-127 | an accepted dataset is among those the background was built for |
| PreprocessUtils.KeepRow | ppm/preprocess_utils.py:142-152 | a kept row has no fusion, mutation or TrEMBL origin, plus for 'spliced' no cryptic and some spliced origin, for other strata a non-null positive `{stratum}_nProteins` and no spliced origin |
| PreprocessUtils.KeptRows | ppm/preprocess_utils.py:142-152 | the filtered rows are exactly the input rows that pass |
| PreprocessUtils.FilterRows | ppm/preprocess_utils.py:142-152 | raises ColumnNotFoundError exactly when the stratum is not 'spliced' and the header has no `{stratum}_nProteins` column, whatever the rows (an empty table included); otherwise keeps exactly the rows that pass |
| PreprocessUtils.FillSr1 | ppm/preprocess_utils.py:144-146 | a missing `sr1` becomes "NA"; everything else is kept |
| PreprocessUtils.JoinPeptides | ppm/preprocess_utils.py:153 | joined rows are detail rows whose peptide is kept |
| PreprocessUtils.JoinPeptidesUnique | ppm/preprocess_utils.py:139-153 | joining tables unique by peptide gives rows unique by peptide |
| PreprocessUtils.JoinPeptidesComplete | ppm/preprocess_utils.py:153 | every detail row whose peptide is kept is joined |
| PreprocessUtils.JoinPeptidesSource | ppm/preprocess_utils.py:153 | every joined row's peptide comes from a kept row |
| PreprocessUtils.FilterRowsSource | ppm/preprocess_utils.py:142-152 | every kept row is an input row that passes |
| PreprocessUtils.FilterRowsUnique | ppm/preprocess_utils.py:139-152 | filtering keeps peptides unique |
| PreprocessUtils.GetPepDfUnique | ppm/preprocess_utils.py:139-153 | the pool table is unique by peptide |
| PreprocessUtils.GetPepDfSource | ppm/preprocess_utils.py:142-153 | every pool peptide is a peptide row that passed the filters |
| PreprocessUtils.GetPepDfSr1 | ppm/preprocess_utils.py:144-146 | every spliced pool row has an `sr1` |
| PreprocessUtils.PepDfOf | ppm/preprocess_utils.py:74-79 | a pool table exists exactly when both files were read and, unless the stratum is 'spliced', the header has the stratum's count column; it is then `_get_pep_df`'s table |
| PreprocessUtils.PoolCount | ppm/preprocess_utils.py:101-113 | a dataset's count is its pool size over its ratio; a missing ratio or a zero ratio raises |
| PreprocessUtils.GetMinCounts | ppm/preprocess_utils.py:98-118 | the loop of `get_min_counts` computes the minimum count |
| PreprocessUtils.MinCountFromBound | ppm/preprocess_utils.py:99-114 | the running minimum fails iff some pool's count fails, and is at most every non-zero count and the starting value |
| PreprocessUtils.MinCountFromSource | ppm/preprocess_utils.py:99-114 | the running minimum is the starting value or some pool's non-zero count |
| PreprocessUtils.MinCountMeaning | ppm/preprocess_utils.py:98-118 | the result is 0 when nothing qualified; otherwise it is some pool's count and is at most every non-zero count |
| PreprocessUtils.Ceil | ppm/preprocess_utils.py:85 | `ceil(x)` is the least integer ≥ x |
| PreprocessUtils.SampleGoal | ppm/preprocess_utils.py:80-82 | the goal is min_count·ratio, divided by 100 for 'spliced', and non-negative |
| PreprocessUtils.RoundGoal | ppm/preprocess_utils.py:83-87 | the rounded goal is floor or ceil; unchanged when integral; ceil exactly when r > frac(goal) |
| PreprocessUtils.SamplePool | ppm/preprocess_utils.py:74-94 | a returned pool is non-empty and has min(pool size, rounded goal) rows; a pool is skipped for other datasets or when it would be empty |
| PreprocessUtils.GetSampledNegativePools | ppm/preprocess_utils.py:66-96 | the loop collects the sampled pools in order |
| PreprocessUtils.SampledPoolSource | ppm/preprocess_utils.py:90-94 | every returned pool is a dataset's sampled pool |
| PreprocessUtils.SampledPoolComplete | ppm/preprocess_utils.py:93-94 | every non-empty sampled pool is returned |
| PreprocessUtils.SampledPoolErrors | ppm/preprocess_utils.py:73-79 | the loop raises exactly when some dataset's step raises |
| PreprocessUtils.TranscriptValues | ppm/preprocess_utils.py:38-41 | one value per transcript feature, taken from the frame's column, and null for every feature of an 'intergenic' frame |
| PreprocessUtils.MergeRows | ppm/preprocess_utils.py:49-54 | every merged row carries the given label and one transcript value per feature |
| PreprocessUtils.MergeOrfLevelData | ppm/preprocess_utils.py:18-64 | the merge fails exactly for an unknown cell line or stratum (KeyError from the dictionary lookups) or, failing that, a missing transcript-feature column (ColumnNotFoundError from `select`); rows carry the label; 'intergenic' rows have null transcript features |
| PreprocessUtils.MergeRowsComplete | ppm/preprocess_utils.py:49-51 | every peptide row meets every reading frame with its protein |
| PreprocessUtils.MergeRowsSource | ppm/preprocess_utils.py:49-54 | every merged row joins a peptide row to a frame with its protein |
| Background.ResiduesDistinct | ppm/create_background.py:18 | the 19 background residues are distinct |
| Background.SelectDatasets | ppm/create_background.py:33-36 | K562 keeps exactly the datasets starting "K562"; other cell lines keep exactly the others |
| Background.CanonicalPeptides | ppm/create_background.py:40-44 | the usable peptides all have the requested length |
| Background.CanonicalPeptideSource | ppm/create_background.py:39-44 | each usable peptide comes from a row of the dataset that is canonical, PISCES-discoverable, of the length and of the cell line |
| Background.CanonicalPeptidesComplete | ppm/create_background.py:39-44 | every such row's peptide is used |
| Background.CountResidues | ppm/create_background.py:51-55 | cell [a, p] counts the peptides with residue a at position p; an unknown residue raises ValueError |
| Background.DivideAll | ppm/create_background.py:56 | every count is divided by the number of peptides |
| Background.PositionFrequencies | ppm/create_background.py:51-56 | cell [a, p] is the frequency of residue a at position p |
| Background.ColumnTotalIsCount | ppm/create_background.py:51-55 | after counting, each position column sums to the number of peptides |
| Background.FrequenciesSumToOne | ppm/create_background.py:51-56 | after division, each position column sums to 1 |
| Background.MaxOf | ppm/create_background.py:66 | the maximum bounds every count and is attained |
| Background.FractionsMeaning | ppm/create_background.py:65-66 | fractions are in (0, 1], ordered as the counts, with the largest exactly 1; no dataset raises KeyError |
| Background.UsedAmong | ppm/create_background.py:45-50 | a dataset is used only when it has canonical peptides |
| Background.CollectDistributions | ppm/create_background.py:38-63 | one frequency table per used dataset, in order; an unknown residue raises |
| Background.GetCanDistro | ppm/create_background.py:25-70 | `get_can_distro` gives the tables, counts and fractions, or raises |
| Background.GenerateRandom | ppm/create_background.py:86-90 | N peptides of the given length; residue j of peptide r is draw r of position j |
| Background.DrawsRecovered | ppm/create_background.py:81-90 | the per-position draws are recovered as the columns of the peptides |
| Background.UniqueRandomPeptidesOnce | ppm/create_background.py:120 | each random peptide is kept exactly once |
| Train.ShuffledGroup | ppm/train.py:84 | a group number lies in [0, 10) |
| Train.CreateCvGroups | ppm/train.py:81-87 | every row gets a group in [0, 10), and rows of the same protein share a group |
| Train.GroupCountExact | ppm/train.py:83-84 | group g holds ⌊n/10⌋ proteins, plus one when g < n mod 10 |
| Train.GroupsBalanced | ppm/train.py:83-84 | any two groups differ in size by at most one |
| Train.InGroup | ppm/train.py:100 | the test rows of fold i are in group i |
| Train.OutOfGroup | ppm/train.py:99 | the training rows of fold i are outside group i |
| Train.FoldsPermutation | ppm/train.py:97-124 | concatenating the folds is a permutation of the rows |
| Train.PredictFold | ppm/train.py:98-105 | each test row of fold i is scored by the model fitted on the rows outside group i |
| Train.CvPredictionsItems | ppm/train.py:97-124 | the scored rows are the folds concatenated in order |
| Train.CvNoLeak | ppm/train.py:97-105 | no row is scored by a model that saw its group |
| Train.CvPredictsEveryRowOnce | ppm/train.py:97-124 | every row is scored exactly once |
| Train.FoldImportances | ppm/train.py:114-115 | one importance vector per fold, from that fold's training rows |
| Train.RunCvTraining | ppm/train.py:89-126 | `run_cv_training` returns the scored folds, the `score_df` folds when given, and importances when saved |
| Train.BestByKey | ppm/train.py:49-51 | keeping the best-scored row per peptide leaves one row per peptide (row order and tie-break: see Left out) |
| Train.BestByKeyCovers | ppm/train.py:49-51 | every peptide keeps a row |
| Train.BestByKeyIsMax | ppm/train.py:49-51 | the kept row has the highest score of its peptide |
| Train.BestByKeySource | ppm/train.py:49-51 | every kept row is an input row |
| Train.TrainModels | ppm/train.py:41-59 | groups, first scoring, best-per-peptide, second scoring and the scored copy of all rows, chained as in `train_models` |
| TrainSpliced.SplicedCvGroupsSource | ppm/train_spliced.py:65-73 | every merged row is an input row with its group from one of its peptide's label tables |
| TrainSpliced.SplicedCvGroupsComplete | ppm/train_spliced.py:65-73 | every labelled row gets its group from its label's table |
| TrainSpliced.BothLabelsDuplicate | ppm/train_spliced.py:65-73 | a peptide that is both positive and negative yields two rows, one per table |
| TrainSpliced.LabelGroupsBalanced | ppm/train_spliced.py:68-70 | within each label, any two groups differ in size by at most one |
| TrainSpliced.TrainSet | ppm/train_spliced.py:84-92 | training rows are outside the fold, and unfiltered when there is no previous round |
| TrainSpliced.TrainSetFilter | ppm/train_spliced.py:85-91 | with a previous round, exactly the background rows and the rows scored above the cutoff remain |
| TrainSpliced.TrainSetKeepsBackground | ppm/train_spliced.py:88-91 | background rows are never filtered out |
| TrainSpliced.SplicedImportances | ppm/train_spliced.py:100 | one importance vector per fold, from its filtered training rows |
| TrainSpliced.SplicedCvAt | ppm/train_spliced.py:93-101 | scored row k is fold row k scored by the model of its own group's training set; there is one scored row per fold row, and the folds are a permutation of the test rows with a group in [0, n) |
| TrainSpliced.RunCvTraining | ppm/train_spliced.py:76-112 | `run_cv_training` returns the scored table and the importances |
| TrainSpliced.BestTable | ppm/train_spliced.py:41-43 | the best-per-peptide table has unique peptides and the same columns (row order: see Left out) |
| TrainSpliced.ScoredColumns | ppm/train_spliced.py:35-50 | after round k the columns are `prediction_xgb0..k` |
| TrainSpliced.RoundFiltering | ppm/train_spliced.py:35-50 | the self-training filter applies exactly from round 1 on |
| TrainSpliced.FinalTable | ppm/train_spliced.py:53-55 | the final table is well formed with columns 0..10 |
| TrainSpliced.TrainSplicedModels | ppm/train_spliced.py:18-57 | `train_spliced_models` chains the rounds; SHAP explanation only in the last round |
| PiscesDb.NoPairNotContains | ppm/create_pisces_db.py:155-157 | a pattern whose first two letters are never adjacent does not occur |
| PiscesDb.CanonicalNames | ppm/create_pisces_db.py:155 | exactly the two canonical tables contain 'canonical' |
| PiscesDb.ContamNames | ppm/create_pisces_db.py:157 | exactly 'contam (t/d)' and 'contaminant' contain 'contam' |
| PiscesDb.TdNames | ppm/create_pisces_db.py:265 | exactly the two target-decoy tables contain 't/d' |
| PiscesDb.StrataOfNames | ppm/create_pisces_db.py:258-270 | each table's stratum label is never 'error'; exactly the t/d tables are only target-decoy discoverable; the routing matches the label |
| PiscesDb.DetailsOfNames | ppm/create_pisces_db.py:191-213 | every one of the eight table names is recognised |
| PiscesDb.DetailsRecognised | ppm/create_pisces_db.py:214-215 | any other name raises ValueError |
| PiscesDb.CanonicalCode | ppm/create_pisces_db.py:206 | the code of 'canonical (t/d)' is 'canonical' |
| PiscesDb.ContamCode | ppm/create_pisces_db.py:206 | the code of 'contam (t/d)' is 'contam' |
| PiscesDb.CanonicalTdCode | ppm/create_pisces_db.py:205-211 | 'canonical (t/d)' gets protein counts under the 'canonical' code |
| PiscesDb.ContamTdCode | ppm/create_pisces_db.py:205-211 | 'contam (t/d)' gets protein counts under the 'contam' code |
| PiscesDb.TdNProteins | ppm/create_pisces_db.py:208-210 | the protein count is the number of spaces plus one, or 0 for an empty list |
| PiscesDb.SplitCount | ppm/create_pisces_db.py:209 | `split(' ')` yields one more piece than there are spaces |
| PiscesDb.SplitJoin | ppm/create_pisces_db.py:113 | splitting a joined list of separator-free pieces gives back the pieces |
| PiscesDb.ParseStrList | ppm/create_pisces_db.py:121-125 | a null cell gives []; otherwise the entries are exactly the non-empty pieces of `x.split(' ')`, in order, so non-empty and space-free |
| PiscesDb.ParseStrListJoin | ppm/create_pisces_db.py:121-125 | parsing a space-joined list of clean entries gives the entries back |
| PiscesDb.NatStringValue | ppm/create_pisces_db.py:113 | the decimal digits of n read back as n |
| PiscesDb.ParseIntString | ppm/create_pisces_db.py:113 | `int()` of a printed integer gives the integer back |
| PiscesDb.ParseInts | ppm/create_pisces_db.py:113 | a list of pieces parses exactly when every piece does, element by element |
| PiscesDb.ParseIntListJoin | ppm/create_pisces_db.py:111-115 | parsing a space-joined list of integers gives the integers back |
| PiscesDb.ParseIntListTrailingSpace | ppm/create_pisces_db.py:113 | a trailing space leaves an empty piece, and `int('')` raises |
| PiscesDb.CountPairsMeaning | ppm/create_pisces_db.py:29-41 | each count column names one plain list column; count columns are distinct and never list columns |
| PiscesDb.PairIndexMeaning | ppm/create_pisces_db.py:29-41 | a column is a count column exactly when it has a position in the table, and that entry pairs it with its list |
| PiscesDb.ColumnsComplete | ppm/create_pisces_db.py:17-28 | the 28 columns are distinct and cover every column |
| PiscesDb.CountsMatchLists | ppm/create_pisces_db.py:131-134 | in a finished row every count equals the length of its list, and no list entry is empty or has a space |
| PiscesDb.IntListsParsed | ppm/create_pisces_db.py:110-119 | the integer list columns hold their parsed values |
| PiscesDb.ParseColumn | ppm/create_pisces_db.py:110-129 | one column's pass parses every row, or raises when one integer list is malformed |
| PiscesDb.CountColumn | ppm/create_pisces_db.py:131-134 | one count pass sets the count to the length of its list in every row |
| PiscesDb.FinaliseColumns | ppm/create_pisces_db.py:108-134 | the two passes succeed exactly when every integer list parses, and give each row's finished form |
| PiscesDb.ParseListColumns | ppm/create_pisces_db.py:108-129 | the parsing pass over all columns |
| PiscesDb.CountListColumns | ppm/create_pisces_db.py:131-134 | the counting pass over all count columns |
| PiscesDb.Union | ppm/create_pisces_db.py:301-306 | the combined list has no repeats |
| PiscesDb.UnionMeaning | ppm/create_pisces_db.py:301-306 | an entry is in the combined list exactly when it is in one of the lists |
| PiscesDb.CombineLists | ppm/create_pisces_db.py:301-306 | `_combine_lists` returns the union without repeats |
| PiscesDb.MaxProbability | ppm/create_pisces_db.py:96 | the aggregated probability bounds every copy's and is one of them |
| PiscesDb.AggregatedRows | ppm/create_pisces_db.py:89-97 | one aggregate per duplicated peptide, over all its copies |
| PiscesDb.SingletonsDistinct | ppm/create_pisces_db.py:86 | `keep=False` leaves each kept peptide once |
| PiscesDb.DuplicatedMeaning | ppm/create_pisces_db.py:87 | a peptide is duplicated exactly when it occurs at least twice |
| PiscesDb.SingletonNotDuplicated | ppm/create_pisces_db.py:86-87 | no peptide is both kept and duplicated |
| PiscesDb.CollapseDistinct | ppm/create_pisces_db.py:86-105 | after the collapse every peptide appears once |
| PiscesDb.CopiesMeaning | ppm/create_pisces_db.py:89 | a peptide's group holds exactly its rows |
| PiscesDb.CollapseCovers | ppm/create_pisces_db.py:86-105 | every input peptide survives the collapse |
| PiscesDb.CollapseKeepsSingletons | ppm/create_pisces_db.py:86 | a peptide that occurs once keeps its row unchanged |
| PiscesDb.CollapseSource | ppm/create_pisces_db.py:86-105 | every collapsed row is a unique row or the aggregate of all copies of a duplicated peptide |
| PiscesDb.AggregateMeaning | ppm/create_pisces_db.py:89-98 | stratum 'contaminant' iff some copy is, else 'error'; discoverable iff some copy is; distinct lists; nDatasets is their length; probability is the maximum |
| PiscesDb.AggregateLists | ppm/create_pisces_db.py:93-95 | the aggregated datasets, cell lines and alleles are those of the copies |
| PiscesDb.EmptyCellsComplete | ppm/create_pisces_db.py:99-103 | count columns are 0 and every other column is '' |
| PiscesDb.AggregateFinal | ppm/create_pisces_db.py:99-134 | after parsing, an aggregated row has zero counts and empty lists |
| PiscesDb.IdentifiedSource | ppm/create_pisces_db.py:174-180 | every identification is a PSM with probability above 0.85, and no two share a peptide |
| PiscesDb.IdentifiedCovers | ppm/create_pisces_db.py:174-180 | every peptide with a confident PSM is kept, by a PSM at least as probable |
| PiscesDb.TdPsmsMeaning | ppm/create_pisces_db.py:183 | a target-decoy PSM is kept exactly when q < 0.01 and PEP < 0.1 |

## Left out

- File and network I/O are left out: CSV/parquet reading and writing, `os.listdir`, `os.mkdir` and the remapper calls. Tables are parameters.
- XGBoost fitting, prediction, hyperparameter search, SHAP values and model saving are left out. The classifier is a function parameter; explanation is recorded only as a flag per round.
- Random draws are parameters: `sample(frac=1)`, `np.random.random`, `choice` and `sample(n=…)`. The draw for `sample(n=…)` is reduced to the size of the sample.
- Biopython's GRAVY hydrophobicity is a parameter that may fail.
- Floating point is modelled with exact reals. NaN is `None` for the mean of an empty slice and for a missing cell.
- Multiprocessing in `add_features_mp` is left out; only the batch numbering is modelled.
- Train.BestByKey: the descending-score order that `sort_values(..., ascending=False)` gives the best-per-peptide table (ppm/train.py:49-51, ppm/train_spliced.py:41-43, 53-55) is not modelled; rows stay in first-appearance order. `Train.TrainModels` and `TrainSpliced.BestTable` therefore hand the classifier, and the written table, the same rows in a different order. Among rows with equal scores the model keeps the earliest. pandas' default sort is not stable, so which row survives a tie is unspecified there; the model's choice is one of the admissible outcomes.
- Common.UniqueBy: polars `unique` with its default `keep='any'` guarantees no particular row per key, and without `maintain_order` no output order. The model reads it as keep-first in input order at its three call sites: ppm/preprocess.py:64-67, ppm/preprocess_spliced.py:128-130 and ppm/preprocess_utils.py:139-140. `Preprocess.CombineSamplesPrefersPositives` and `Preprocess.PositiveKept` (every positive pair survives as a positive) hold under that reading only; the key uniqueness, coverage and source properties hold for any choice.
- Preprocess.ExplodeProteinsClean: its own contract states only that the identifiers are clean and that the peptides come from the input. Which identifiers each row yields is stated by Preprocess.ExplodeProteinsOfRow for one row and carried over whole tables by Preprocess.ExplodeProteinsAppend.
- PreprocessUtils.FilterRows: only the header check for `{stratum}_nProteins` is modelled. `nCrypticProteins`, `nSplicedProteins`, `fusion_nProteins`, `mutation_nProteins` and `TrEMBL_nProteins` are taken to be present in every `peptides.csv` header, and their cells to be non-null.
- Kozak.UpperAscii: `str.upper()` is modelled on ASCII letters only. Python upper-cases all of Unicode and can change a string's length ('ß' becomes 'SS'); nucleotide windows are ASCII.
- Row order after grouping:
  - `groupby` output is taken in first-occurrence order;
  - `list(set(...))` in `_combine_lists` is taken in first-occurrence order;
  - Python's set order is arbitrary, so only membership and distinctness are stated.
- The final sort by stratum and probability (ppm/create_pisces_db.py:136) is left out. So are the per-stratum probability sorts, since the model keeps one row per peptide without order.
- `split_strata`, `split_nc_strata`, `combine_dfs`, `combine_all_strata`, `combine_td_pisces_dfs` and the per-project loop of `create_pisces_db` are left out. They only join tables read from files; the labelling and aggregation rules they apply are modelled.
- Python's `int()` also accepts a sign, surrounding whitespace and underscores. The model accepts an optional leading '-' or '+' followed by ASCII digits.
- `process_stratum`'s call to `add_features`, the explode, and the CSV columns are left out. The explode's alignment condition is stated as `Preprocess.FeaturesExplodeAligned`.
- `Occurrences.FindAll`: `re.finditer` is modelled only for literal patterns. Peptides consist of residue letters and contain no regular-expression metacharacters.
- `PiscesDb.MaxProbability` returns 0.0 for an empty group. That case cannot arise because every group holds at least two rows.
- `gather_positive_samples` and the reading-frame tables' own columns are left out, apart from the label and null rules of `merge_orf_level_data`.
- The plotting, reporting and analysis modules are not part of this model.
