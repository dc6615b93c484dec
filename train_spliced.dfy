/** Training of the spliced-peptide model: cross-validation groups drawn
    separately for identified and background peptides, a first round of
    ten-fold training over every row, and ten further rounds, each of which
    trains on the best-scored row of every peptide and drops from the
    training folds the identified rows the previous round scored at or
    below a cutoff. The classifier and the cutoff are parameters. */
module TrainSpliced {
  import opened Common
  import opened Constants
  import opened Train

  /** `N_ITERATIONS`: the rounds that follow the first one. */
  const NIterations: nat := 10

  /** `CV_SIZE`: the number of folds; the same number as `N_CV_GROUPS`, so
      the numbering rule of the canonical training applies unchanged. */
  const CvSize: nat := 10

  /** An input row: peptide, label (1 identified, 0 background) and its
      feature values. */
  datatype SplicedRow = SplicedRow(peptide: string, classLabel: int, features: seq<real>)

  /** A row with its cross-validation group and its `prediction_xgb{k}`
      columns, keyed by the round number k. */
  datatype RoundRow = RoundRow(row: SplicedRow, cvGroup: int, scores: map<nat, real>)

  /** A table: its rows and the round numbers of its prediction columns. */
  datatype Table = Table(rows: seq<RoundRow>, columns: set<nat>)

  /** Every row of a table has exactly the table's prediction columns. */
  predicate WellFormed(t: Table) {
    forall k :: 0 <= k < |t.rows| ==> t.rows[k].scores.Keys == t.columns
  }

  function Group(x: RoundRow): int {
    x.cvGroup
  }

  function PeptideOf(x: RoundRow): string {
    x.row.peptide
  }

  /** The value of column `prediction_xgb{c}` (0.0 stands for a missing
      cell, which a well-formed table with that column does not have). */
  function Score(x: RoundRow, c: nat): real {
    if c in x.scores then x.scores[c] else 0.0
  }

  // ---------------------------------------------------------------------
  // Cross-validation groups per label (`create_cv_groups`)

  /** The peptides of the rows carrying a label, in order, with repeats. */
  function LabelPeptides(rows: seq<SplicedRow>, classLabel: int): seq<string>
    decreases |rows|
  {
    if rows == [] then []
    else (if rows[0].classLabel == classLabel then [rows[0].peptide] else []) + LabelPeptides(rows[1..], classLabel)
  }

  lemma {:induction false} LabelPeptidesHas(rows: seq<SplicedRow>, classLabel: int, i: nat)
    requires i < |rows| && rows[i].classLabel == classLabel
    ensures rows[i].peptide in LabelPeptides(rows, classLabel)
    decreases |rows|
  {
    if i > 0 {
      assert rows[1..][i - 1] == rows[i];
      LabelPeptidesHas(rows[1..], classLabel, i - 1);
    }
  }

  /** The rows the inner merge on `peptide` makes of one input row: one
      per table of numbered peptides that holds its peptide, the positive
      table first. */
  function Matches(x: SplicedRow, pos: seq<string>, neg: seq<string>): seq<RoundRow> {
    (if x.peptide in pos then [RoundRow(x, ShuffledGroup(pos, x.peptide), map[])] else []) +
    (if x.peptide in neg then [RoundRow(x, ShuffledGroup(neg, x.peptide), map[])] else [])
  }

  function MatchesOf(pos: seq<string>, neg: seq<string>): (f: SplicedRow -> seq<RoundRow>)
    ensures forall x :: f(x) == Matches(x, pos, neg)
  {
    x => Matches(x, pos, neg)
  }

  /** `create_cv_groups`: `pos` and `neg` are the shuffled distinct
      peptides of the identified and the background rows; a peptide's group
      is its shuffled position modulo 10, and the rows are merged with the
      numbered peptides on `peptide`. */
  function SplicedCvGroups(rows: seq<SplicedRow>, pos: seq<string>, neg: seq<string>): seq<RoundRow> {
    FlatMap(rows, MatchesOf(pos, neg))
  }

  /** Every merged row is an input row, numbered in the table of one of
      its peptide's labels with a group in [0, 10), and without prediction
      columns: returns the input row's index. */
  lemma SplicedCvGroupsSource(rows: seq<SplicedRow>, pos: seq<string>, neg: seq<string>, k: nat) returns (i: nat)
    requires k < |SplicedCvGroups(rows, pos, neg)|
    ensures i < |rows|
    ensures var x := SplicedCvGroups(rows, pos, neg)[k];
      x.row == rows[i] && 0 <= x.cvGroup < CvSize && x.scores == map[] &&
      ((x.row.peptide in pos && x.cvGroup == ShuffledGroup(pos, x.row.peptide)) ||
       (x.row.peptide in neg && x.cvGroup == ShuffledGroup(neg, x.row.peptide)))
  {
    var j;
    i, j := FlatMapSource(rows, MatchesOf(pos, neg), k);
  }

  /** Every identified or background row is kept, numbered in the table of
      its own label: returns its position. */
  lemma SplicedCvGroupsComplete(rows: seq<SplicedRow>, pos: seq<string>, neg: seq<string>, i: nat) returns (k: nat)
    requires IsShuffle(pos, LabelPeptides(rows, 1)) && IsShuffle(neg, LabelPeptides(rows, 0))
    requires i < |rows| && (rows[i].classLabel == 0 || rows[i].classLabel == 1)
    ensures k < |SplicedCvGroups(rows, pos, neg)|
    ensures SplicedCvGroups(rows, pos, neg)[k].row == rows[i]
    ensures SplicedCvGroups(rows, pos, neg)[k].cvGroup ==
      ShuffledGroup(if rows[i].classLabel == 1 then pos else neg, rows[i].peptide)
  {
    LabelPeptidesHas(rows, rows[i].classLabel, i);
    var off := FlatMapAt(rows, MatchesOf(pos, neg), i);
    var j := if rows[i].classLabel == 1 || rows[i].peptide !in pos then 0 else 1;
    assert SplicedCvGroups(rows, pos, neg)[off + j] == Matches(rows[i], pos, neg)[j];
    k := off + j;
  }

  /** A peptide found with both labels is numbered in both tables, so each
      of its rows comes out twice, once with each group. */
  lemma BothLabelsDuplicate(rows: seq<SplicedRow>, pos: seq<string>, neg: seq<string>, i: nat) returns (k1: nat, k2: nat)
    requires IsShuffle(pos, LabelPeptides(rows, 1)) && IsShuffle(neg, LabelPeptides(rows, 0))
    requires i < |rows| && rows[i].peptide in LabelPeptides(rows, 1) && rows[i].peptide in LabelPeptides(rows, 0)
    ensures k1 < k2 < |SplicedCvGroups(rows, pos, neg)|
    ensures SplicedCvGroups(rows, pos, neg)[k1].row == rows[i] && SplicedCvGroups(rows, pos, neg)[k2].row == rows[i]
    ensures SplicedCvGroups(rows, pos, neg)[k1].cvGroup == ShuffledGroup(pos, rows[i].peptide)
    ensures SplicedCvGroups(rows, pos, neg)[k2].cvGroup == ShuffledGroup(neg, rows[i].peptide)
  {
    var off := FlatMapAt(rows, MatchesOf(pos, neg), i);
    assert |Matches(rows[i], pos, neg)| == 2;
    assert SplicedCvGroups(rows, pos, neg)[off] == Matches(rows[i], pos, neg)[0];
    assert SplicedCvGroups(rows, pos, neg)[off + 1] == Matches(rows[i], pos, neg)[1];
    k1, k2 := off, off + 1;
  }

  /** The merged table has no prediction column and is well formed. */
  lemma TotalWellFormed(rows: seq<SplicedRow>, pos: seq<string>, neg: seq<string>)
    ensures WellFormed(Table(SplicedCvGroups(rows, pos, neg), {}))
  {
    forall k | 0 <= k < |SplicedCvGroups(rows, pos, neg)|
      ensures SplicedCvGroups(rows, pos, neg)[k].scores.Keys == {}
    {
      var i := SplicedCvGroupsSource(rows, pos, neg, k);
    }
  }

  /** Within each label the groups are balanced: for the identified and for
      the background peptides, any two groups' sizes differ by at most one. */
  lemma LabelGroupsBalanced(rows: seq<SplicedRow>, pos: seq<string>, neg: seq<string>, g1: int, g2: int)
    requires IsShuffle(pos, LabelPeptides(rows, 1)) && IsShuffle(neg, LabelPeptides(rows, 0))
    requires 0 <= g1 < CvSize && 0 <= g2 < CvSize
    ensures -1 <= GroupCount(pos, g1, |pos|) - GroupCount(pos, g2, |pos|) <= 1
    ensures -1 <= GroupCount(neg, g1, |neg|) - GroupCount(neg, g2, |neg|) <= 1
  {
    GroupsBalanced(pos, g1, g2);
    GroupsBalanced(neg, g1, g2);
  }

  // ---------------------------------------------------------------------
  // One fold (`run_cv_training`, loop body)

  /** The values of column `prediction_xgb{c}`. */
  function ColumnValues(rows: seq<RoundRow>, c: nat): (v: seq<real>)
    ensures |v| == |rows| && forall k :: 0 <= k < |v| ==> v[k] == Score(rows[k], c)
  {
    seq(|rows|, k requires 0 <= k < |rows| => Score(rows[k], c))
  }

  /** Whether the training table has the previous round's column
      `prediction_xgb{idx-1}`; in round 0 that name denotes no column. */
  predicate HasPreviousColumn(unique: Table, idx: nat) {
    idx >= 1 && idx - 1 in unique.columns
  }

  /** The self-training filter: background rows always stay, identified
      rows stay when the previous round scored them above the cutoff. */
  predicate SelfTrainingKeep(x: RoundRow, c: nat, cut: real) {
    x.row.classLabel == 0 || Score(x, c) > cut
  }

  /** The training rows of fold `i` in round `idx`: the rows outside group
      `i`, filtered by the cutoff (the 10% quantile, a parameter) of the
      previous round's scores over those rows when that column exists. */
  function TrainSet(unique: Table, i: int, idx: nat, cutoff: seq<real> -> real): (r: seq<RoundRow>)
    ensures forall k :: 0 <= k < |r| ==> r[k].cvGroup != i
    ensures !HasPreviousColumn(unique, idx) ==> r == OutOfGroup(unique.rows, Group, i)
  {
    var out := OutOfGroup(unique.rows, Group, i);
    if HasPreviousColumn(unique, idx) then
      var cut := cutoff(ColumnValues(out, idx - 1));
      Filter(out, (x: RoundRow) => SelfTrainingKeep(x, idx - 1, cut))
    else out
  }

  /** With the previous round's column, the training rows are exactly the
      rows outside the group that pass the filter: every background row
      stays, and an identified row stays iff its previous score is above
      the cutoff. */
  lemma TrainSetFilter(unique: Table, i: int, idx: nat, cutoff: seq<real> -> real)
    requires HasPreviousColumn(unique, idx)
    ensures var out := OutOfGroup(unique.rows, Group, i);
      var cut := cutoff(ColumnValues(out, idx - 1));
      var r := TrainSet(unique, i, idx, cutoff);
      (forall k :: 0 <= k < |r| ==> r[k] in out && SelfTrainingKeep(r[k], idx - 1, cut)) &&
      (forall k :: 0 <= k < |out| && SelfTrainingKeep(out[k], idx - 1, cut) ==> out[k] in r)
  {
  }

  /** No background row outside the held-out group is ever filtered out. */
  lemma TrainSetKeepsBackground(unique: Table, i: int, idx: nat, cutoff: seq<real> -> real, k: nat)
    requires k < |OutOfGroup(unique.rows, Group, i)| && OutOfGroup(unique.rows, Group, i)[k].row.classLabel == 0
    ensures OutOfGroup(unique.rows, Group, i)[k] in TrainSet(unique, i, idx, cutoff)
  {
    if HasPreviousColumn(unique, idx) {
      TrainSetFilter(unique, i, idx, cutoff);
    } else {
      assert TrainSet(unique, i, idx, cutoff)[k] == OutOfGroup(unique.rows, Group, i)[k];
    }
  }

  /** The table the held-out rows come from: `total_pep_df` when given,
      otherwise the training table. */
  function TestSource(unique: Table, total: Option<Table>): Table {
    if total.Some? then total.value else unique
  }

  /** A row with column `prediction_xgb{idx}` set. */
  function WithScore(x: RoundRow, idx: nat, p: real): RoundRow {
    x.(scores := x.scores[idx := p])
  }

  /** The model fitted on `train` scoring a row into column
      `prediction_xgb{idx}`. */
  function PredictWith(train: seq<RoundRow>, idx: nat, predict: (seq<RoundRow>, RoundRow) -> real): (f: RoundRow -> RoundRow)
    ensures forall x :: f(x) == WithScore(x, idx, predict(train, x))
  {
    x => WithScore(x, idx, predict(train, x))
  }

  /** The scorer of fold `i`: the model fitted on fold `i`'s training rows. */
  function FoldScorer(unique: Table, idx: nat, predict: (seq<RoundRow>, RoundRow) -> real, cutoff: seq<real> -> real)
    : (f: int -> (RoundRow -> RoundRow))
    ensures forall i :: f(i) == PredictWith(TrainSet(unique, i, idx, cutoff), idx, predict)
  {
    i => PredictWith(TrainSet(unique, i, idx, cutoff), idx, predict)
  }

  /** The predicted folds 0, …, n-1 of the test source, concatenated. */
  function SplicedCv(unique: Table, total: Option<Table>, idx: nat,
                     predict: (seq<RoundRow>, RoundRow) -> real, cutoff: seq<real> -> real, n: nat): seq<RoundRow>
  {
    ConcatFolds(TestSource(unique, total).rows, Group, FoldScorer(unique, idx, predict, cutoff), n)
  }

  /** The feature importances of the first n fold models. */
  function SplicedImportances(unique: Table, idx: nat, importance: seq<RoundRow> -> seq<real>,
                              cutoff: seq<real> -> real, n: nat): (r: seq<seq<real>>)
    ensures |r| == n
    ensures forall i :: 0 <= i < n ==> r[i] == importance(TrainSet(unique, i, idx, cutoff))
  {
    if n == 0 then [] else SplicedImportances(unique, idx, importance, cutoff, n - 1) + [importance(TrainSet(unique, n - 1, idx, cutoff))]
  }

  lemma SplicedCvStep(unique: Table, total: Option<Table>, idx: nat,
                      predict: (seq<RoundRow>, RoundRow) -> real, cutoff: seq<real> -> real, i: nat)
    ensures SplicedCv(unique, total, idx, predict, cutoff, i + 1) ==
      SplicedCv(unique, total, idx, predict, cutoff, i) +
      MapSeq(InGroup(TestSource(unique, total).rows, Group, i), PredictWith(TrainSet(unique, i, idx, cutoff), idx, predict))
  {
    assert FoldScorer(unique, idx, predict, cutoff)(i) == PredictWith(TrainSet(unique, i, idx, cutoff), idx, predict);
  }

  /** The table one call of `run_cv_training` returns. */
  function CvRound(unique: Table, total: Option<Table>, idx: nat,
                   predict: (seq<RoundRow>, RoundRow) -> real, cutoff: seq<real> -> real): Table
  {
    Table(SplicedCv(unique, total, idx, predict, cutoff, CvSize), TestSource(unique, total).columns + {idx})
  }

  /** Output row k is row k of the folds of the test source, with column
      `prediction_xgb{idx}` set by the model of its own group, whose
      training rows all lie outside that group; and there is one output
      row per fold row, the folds holding every row of the test source with
      a group in [0, n) exactly once. */
  lemma SplicedCvAt(unique: Table, total: Option<Table>, idx: nat,
                    predict: (seq<RoundRow>, RoundRow) -> real, cutoff: seq<real> -> real, n: nat, k: nat)
    requires k < |SplicedCv(unique, total, idx, predict, cutoff, n)|
    ensures var folds := Folds(TestSource(unique, total).rows, Group, n);
      var x := SplicedCv(unique, total, idx, predict, cutoff, n)[k];
      k < |folds| && 0 <= x.cvGroup < n &&
      x == WithScore(folds[k], idx, predict(TrainSet(unique, x.cvGroup, idx, cutoff), folds[k]))
    ensures |SplicedCv(unique, total, idx, predict, cutoff, n)| == |Folds(TestSource(unique, total).rows, Group, n)|
    ensures multiset(Folds(TestSource(unique, total).rows, Group, n)) ==
      multiset(InRange(TestSource(unique, total).rows, Group, n))
  {
    ConcatFoldsAt(TestSource(unique, total).rows, Group, FoldScorer(unique, idx, predict, cutoff), n, k);
    ConcatFoldsLength(TestSource(unique, total).rows, Group, FoldScorer(unique, idx, predict, cutoff), n);
    FoldsPartition(TestSource(unique, total).rows, Group, n);
  }

  /** The returned table is well formed again, with the new column added. */
  lemma CvRoundWellFormed(unique: Table, total: Option<Table>, idx: nat,
                          predict: (seq<RoundRow>, RoundRow) -> real, cutoff: seq<real> -> real)
    requires WellFormed(TestSource(unique, total))
    ensures WellFormed(CvRound(unique, total, idx, predict, cutoff))
  {
    var src := TestSource(unique, total);
    var out := CvRound(unique, total, idx, predict, cutoff);
    var hasCols := (x: RoundRow) => x.scores.Keys == src.columns;
    forall k | 0 <= k < |out.rows|
      ensures out.rows[k].scores.Keys == out.columns
    {
      SplicedCvAt(unique, total, idx, predict, cutoff, CvSize, k);
      FoldsAll(src.rows, Group, CvSize, hasCols);
    }
  }

  /** `run_cv_training`: ten folds, each fitted on its filtered training
      rows and predicting its group of the test source; the importances of
      all ten models. */
  method RunCvTraining(unique: Table, total: Option<Table>, idx: nat,
                       predict: (seq<RoundRow>, RoundRow) -> real, importance: seq<RoundRow> -> seq<real>,
                       cutoff: seq<real> -> real)
    returns (scored: Table, importances: seq<seq<real>>)
    ensures scored == CvRound(unique, total, idx, predict, cutoff)
    ensures importances == SplicedImportances(unique, idx, importance, cutoff, CvSize)
  {
    var tests: seq<RoundRow> := [];
    importances := [];
    var test := TestSource(unique, total).rows;
    for i := 0 to CvSize
      invariant tests == SplicedCv(unique, total, idx, predict, cutoff, i)
      invariant importances == SplicedImportances(unique, idx, importance, cutoff, i)
    {
      var train := TrainSet(unique, i, idx, cutoff);
      importances := importances + [importance(train)];
      SplicedCvStep(unique, total, idx, predict, cutoff, i);
      tests := tests + MapSeq(InGroup(test, Group, i), PredictWith(train, idx, predict));
    }
    scored := Table(tests, TestSource(unique, total).columns + {idx});
  }

  // ---------------------------------------------------------------------
  // The rounds (`train_spliced_models`)

  /** `sort_values(prediction_xgb{c}, ascending=False).drop_duplicates('peptide')`:
      the best-scored row of every peptide; the peptides are distinct. */
  function BestTable(t: Table, c: nat): (r: Table)
    ensures r.columns == t.columns
    ensures forall i, j :: 0 <= i < j < |r.rows| ==> r.rows[i].row.peptide != r.rows[j].row.peptide
  {
    Table(BestByKey(t.rows, PeptideOf, (x: RoundRow) => Score(x, c)), t.columns)
  }

  /** The rows of a best table are rows of the table. */
  lemma BestTableWellFormed(t: Table, c: nat)
    requires WellFormed(t)
    ensures WellFormed(BestTable(t, c))
  {
    var r := BestTable(t, c);
    forall k | 0 <= k < |r.rows|
      ensures r.rows[k].scores.Keys == r.columns
    {
      var i := BestByKeySource(t.rows, PeptideOf, (x: RoundRow) => Score(x, c), k);
    }
  }

  /** One call of `run_cv_training` as a value: training table, test
      table and round number to the scored table. */
  function CvRoundOf(predict: (seq<RoundRow>, RoundRow) -> real, cutoff: seq<real> -> real)
    : (f: (Table, Option<Table>, nat) -> Table)
    ensures forall u, t, i :: f(u, t, i) == CvRound(u, t, i, predict, cutoff)
  {
    (u: Table, t: Option<Table>, i: nat) => CvRound(u, t, i, predict, cutoff)
  }

  /** A round adds its own column to the columns of its test table. */
  ghost predicate AddsColumn(round: (Table, Option<Table>, nat) -> Table) {
    forall u, t, i :: round(u, t, i).columns == TestSource(u, t).columns + {i}
  }

  /** A round scoring a well-formed test table returns a well-formed table. */
  ghost predicate KeepsWellFormed(round: (Table, Option<Table>, nat) -> Table) {
    forall u, t, i :: WellFormed(TestSource(u, t)) ==> WellFormed(round(u, t, i))
  }

  lemma CvRoundAddsColumn(predict: (seq<RoundRow>, RoundRow) -> real, cutoff: seq<real> -> real)
    ensures AddsColumn(CvRoundOf(predict, cutoff))
  {
  }

  lemma CvRoundKeepsWellFormed(predict: (seq<RoundRow>, RoundRow) -> real, cutoff: seq<real> -> real)
    ensures KeepsWellFormed(CvRoundOf(predict, cutoff))
  {
    forall u, t, i | WellFormed(TestSource(u, t))
      ensures WellFormed(CvRoundOf(predict, cutoff)(u, t, i))
    {
      CvRoundWellFormed(u, t, i, predict, cutoff);
    }
  }

  /** The table after round k: round 0 trains and predicts on the merged
      table; round k+1 trains on the best row of every peptide by round k's
      score and predicts round k's table. */
  function Scored(total: Table, k: nat, round: (Table, Option<Table>, nat) -> Table): Table {
    if k == 0 then round(total, Some(total), 0)
    else
      var prev := Scored(total, k - 1, round);
      round(BestTable(prev, k - 1), Some(prev), k)
  }

  lemma ScoredNext(total: Table, k: nat, round: (Table, Option<Table>, nat) -> Table)
    ensures Scored(total, k + 1, round) ==
      round(BestTable(Scored(total, k, round), k), Some(Scored(total, k, round)), k + 1)
    ensures RoundInput(total, k + 1, round) == BestTable(Scored(total, k, round), k)
  {
  }

  /** The training table of round k. */
  function RoundInput(total: Table, k: nat, round: (Table, Option<Table>, nat) -> Table): Table {
    if k == 0 then total else BestTable(Scored(total, k - 1, round), k - 1)
  }

  /** The round numbers 0, …, k. */
  function RoundColumns(k: nat): set<nat> {
    if k == 0 then {0} else RoundColumns(k - 1) + {k}
  }

  lemma {:induction false} RoundColumnsMeaning(k: nat, j: nat)
    ensures j in RoundColumns(k) <==> j <= k
  {
    if k > 0 {
      RoundColumnsMeaning(k - 1, j);
    }
  }

  /** After round k the table has exactly the columns `prediction_xgb0`
      … `prediction_xgb{k}`. */
  lemma {:induction false} ScoredColumns(total: Table, k: nat, round: (Table, Option<Table>, nat) -> Table)
    requires total.columns == {} && AddsColumn(round)
    ensures Scored(total, k, round).columns == RoundColumns(k)
  {
    if k > 0 {
      ScoredColumns(total, k - 1, round);
    }
  }

  /** Every round's table is well formed. */
  lemma {:induction false} ScoredWellFormed(total: Table, k: nat, round: (Table, Option<Table>, nat) -> Table)
    requires WellFormed(total) && KeepsWellFormed(round)
    ensures WellFormed(Scored(total, k, round))
  {
    if k > 0 {
      var prev := Scored(total, k - 1, round);
      ScoredWellFormed(total, k - 1, round);
      assert WellFormed(TestSource(BestTable(prev, k - 1), Some(prev)));
    }
  }

  /** Round 0 trains every fold on all of its rows; every later round
      applies the self-training filter, its table having the previous
      round's column. */
  lemma RoundFiltering(total: Table, k: nat, round: (Table, Option<Table>, nat) -> Table)
    requires total.columns == {} && AddsColumn(round)
    ensures HasPreviousColumn(RoundInput(total, k, round), k) <==> k >= 1
  {
    if k >= 1 {
      ScoredColumns(total, k - 1, round);
      RoundColumnsMeaning(k - 1, k - 1);
    }
  }

  /** The final best-per-peptide table is well formed and has the columns
      of all eleven rounds. */
  lemma FinalTable(total: Table, round: (Table, Option<Table>, nat) -> Table)
    requires WellFormed(total) && total.columns == {} && AddsColumn(round) && KeepsWellFormed(round)
    ensures WellFormed(BestTable(Scored(total, NIterations, round), NIterations))
    ensures BestTable(Scored(total, NIterations, round), NIterations).columns == RoundColumns(NIterations)
  {
    ScoredColumns(total, NIterations, round);
    ScoredWellFormed(total, NIterations, round);
    BestTableWellFormed(Scored(total, NIterations, round), NIterations);
  }

  /** `train_spliced_models`: groups per label, round 0, then ten rounds
      each on the best row per peptide of the previous round, and finally
      the best row per peptide of the last round, a well-formed table with
      the columns of all eleven rounds. Also returns the last round's
      importances and, per round, whether explanations were requested. */
  method TrainSplicedModels(rows: seq<SplicedRow>, pos: seq<string>, neg: seq<string>,
                            predict: (seq<RoundRow>, RoundRow) -> real, importance: seq<RoundRow> -> seq<real>,
                            cutoff: seq<real> -> real)
    returns (unique: Table, importances: seq<seq<real>>, explained: seq<bool>)
    requires IsShuffle(pos, LabelPeptides(rows, 1)) && IsShuffle(neg, LabelPeptides(rows, 0))
    ensures var total := Table(SplicedCvGroups(rows, pos, neg), {});
      var round := CvRoundOf(predict, cutoff);
      unique == BestTable(Scored(total, NIterations, round), NIterations) &&
      importances == SplicedImportances(RoundInput(total, NIterations, round), NIterations, importance, cutoff, CvSize)
    ensures WellFormed(unique) && unique.columns == RoundColumns(NIterations)
    ensures |explained| == NIterations + 1 && forall k :: 0 <= k < |explained| ==> (explained[k] <==> k == NIterations)
  {
    var total := Table(SplicedCvGroups(rows, pos, neg), {});
    ghost var round := CvRoundOf(predict, cutoff);
    var scored;
    scored, importances := RunCvTraining(total, Some(total), 0, predict, importance, cutoff);
    explained := [false];
    for idx := 0 to NIterations
      invariant scored == Scored(total, idx, round)
      invariant idx > 0 ==> importances == SplicedImportances(RoundInput(total, idx, round), idx, importance, cutoff, CvSize)
      invariant |explained| == idx + 1 && forall k :: 0 <= k < |explained| ==> (explained[k] <==> k == NIterations)
    {
      var input := BestTable(scored, idx);
      var explain := idx == NIterations - 1;
      ghost var prev := scored;
      scored, importances := RunCvTraining(input, Some(scored), idx + 1, predict, importance, cutoff);
      ScoredNext(total, idx, round);
      assert scored == round(input, Some(prev), idx + 1);
      explained := explained + [explain];
    }
    unique := BestTable(scored, NIterations);
    TotalWellFormed(rows, pos, neg);
    CvRoundAddsColumn(predict, cutoff);
    CvRoundKeepsWellFormed(predict, cutoff);
    FinalTable(total, round);
  }
}
