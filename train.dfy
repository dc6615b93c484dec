/** Training of the canonical and cryptic models: the assignment of
    cross-validation groups by protein, the ten-fold training loop in which
    every row is predicted by the model of the one fold that held it out,
    and the step that keeps the best-scored row of every peptide before the
    second stage. The classifier itself is a parameter. */
module Train {
  import opened Common
  import opened Constants

  /** A training row: peptide, the reading frame it came from, its label
      (1 identified, 0 background) and its feature values. */
  datatype TrainRow = TrainRow(peptide: string, proteinId: string, classLabel: int, features: seq<real>)

  /** A training row with its cross-validation group. */
  datatype GroupedRow = GroupedRow(row: TrainRow, cvGroup: int)

  /** A row with the prediction of the model that did not train on it. */
  datatype Predicted<T> = Predicted(item: T, prediction: real)

  // ---------------------------------------------------------------------
  // Cross-validation groups by protein (`create_cv_groups`)

  /** The `proteinID` column. */
  function ProteinIds(rows: seq<TrainRow>): (r: seq<string>)
    ensures |r| == |rows| && forall k :: 0 <= k < |r| ==> r[k] == rows[k].proteinId
  {
    seq(|rows|, k requires 0 <= k < |rows| => rows[k].proteinId)
  }

  /** `shuffled` is an order of the distinct values of `ids` (the result of
      `drop_duplicates().sample(frac=1)`). */
  ghost predicate IsShuffle(shuffled: seq<string>, ids: seq<string>) {
    Distinct(shuffled) && (forall x :: x in shuffled <==> x in ids)
  }

  /** A value's group: its position in the shuffled order modulo the
      number of groups. */
  function ShuffledGroup(shuffled: seq<string>, p: string): (g: int)
    ensures 0 <= g < NCvGroups
  {
    IndexOf(shuffled, p) % NCvGroups
  }

  /** The rows with the group of their protein attached. Every row has a
      group in [0, 10), and rows of one protein share it. */
  function CreateCvGroups(rows: seq<TrainRow>, shuffled: seq<string>): (r: seq<GroupedRow>)
    requires IsShuffle(shuffled, ProteinIds(rows))
    ensures |r| == |rows|
    ensures forall k :: 0 <= k < |r| ==> r[k].row == rows[k] && 0 <= r[k].cvGroup < NCvGroups
    ensures forall j, k :: 0 <= j < |r| && 0 <= k < |r| && rows[j].proteinId == rows[k].proteinId ==>
      r[j].cvGroup == r[k].cvGroup
  {
    seq(|rows|, k requires 0 <= k < |rows| => GroupedRow(rows[k], ShuffledGroup(shuffled, rows[k].proteinId)))
  }

  /** How many of the first `n` shuffled proteins fall in group `g`. */
  function GroupCount(shuffled: seq<string>, g: int, n: nat): (c: nat)
    requires n <= |shuffled|
    ensures c <= n
  {
    if n == 0 then 0
    else GroupCount(shuffled, g, n - 1) + (if ShuffledGroup(shuffled, shuffled[n - 1]) == g then 1 else 0)
  }

  /** Numbering a shuffle modulo 10 gives group g exactly n/10 proteins,
      plus one when g is below n mod 10. */
  lemma {:induction false} GroupCountExact(shuffled: seq<string>, g: int, n: nat)
    requires Distinct(shuffled) && n <= |shuffled| && 0 <= g < NCvGroups
    ensures GroupCount(shuffled, g, n) == n / NCvGroups + (if g < n % NCvGroups then 1 else 0)
  {
    if n > 0 {
      var m := n - 1;
      GroupCountExact(shuffled, g, m);
      assert IndexOf(shuffled, shuffled[m]) == m;
      assert m == NCvGroups * (m / NCvGroups) + m % NCvGroups;
      if m % NCvGroups == NCvGroups - 1 {
        assert n / NCvGroups == m / NCvGroups + 1 && n % NCvGroups == 0;
      } else {
        assert n / NCvGroups == m / NCvGroups && n % NCvGroups == m % NCvGroups + 1;
      }
    }
  }

  /** The groups are balanced: their protein counts differ by at most one. */
  lemma GroupsBalanced(shuffled: seq<string>, g1: int, g2: int)
    requires Distinct(shuffled) && 0 <= g1 < NCvGroups && 0 <= g2 < NCvGroups
    ensures -1 <= GroupCount(shuffled, g1, |shuffled|) - GroupCount(shuffled, g2, |shuffled|) <= 1
  {
    GroupCountExact(shuffled, g1, |shuffled|);
    GroupCountExact(shuffled, g2, |shuffled|);
  }

  // ---------------------------------------------------------------------
  // Folds

  /** The rows of group `g` (`df[df['cvGroup'] == g]`). */
  function InGroup<T>(s: seq<T>, group: T -> int, g: int): (r: seq<T>)
    ensures |r| <= |s|
    ensures forall k :: 0 <= k < |r| ==> group(r[k]) == g
    decreases |s|
  {
    if s == [] then []
    else (if group(s[0]) == g then [s[0]] else []) + InGroup(s[1..], group, g)
  }

  /** The rows outside group `g` (`df[df['cvGroup'] != g]`). */
  function OutOfGroup<T>(s: seq<T>, group: T -> int, g: int): (r: seq<T>)
    ensures |r| <= |s|
    ensures forall k :: 0 <= k < |r| ==> group(r[k]) != g
    decreases |s|
  {
    if s == [] then []
    else (if group(s[0]) != g then [s[0]] else []) + OutOfGroup(s[1..], group, g)
  }

  /** The rows whose group is in [0, n). */
  function InRange<T>(s: seq<T>, group: T -> int, n: int): (r: seq<T>)
    decreases |s|
  {
    if s == [] then []
    else (if 0 <= group(s[0]) < n then [s[0]] else []) + InRange(s[1..], group, n)
  }

  /** The concatenation of the groups 0, 1, …, n-1, in that order. */
  function Folds<T>(s: seq<T>, group: T -> int, n: nat): (r: seq<T>)
    ensures forall k :: 0 <= k < |r| ==> 0 <= group(r[k]) < n
  {
    if n == 0 then [] else Folds(s, group, n - 1) + InGroup(s, group, n - 1)
  }

  /** A property every row has, every row of a group has. */
  lemma {:induction false} InGroupAll<T>(s: seq<T>, group: T -> int, g: int, p: T -> bool)
    requires forall k :: 0 <= k < |s| ==> p(s[k])
    ensures forall k :: 0 <= k < |InGroup(s, group, g)| ==> p(InGroup(s, group, g)[k])
    decreases |s|
  {
    if s != [] {
      assert forall k :: 0 <= k < |s[1..]| ==> s[1..][k] == s[k + 1];
      InGroupAll(s[1..], group, g, p);
    }
  }

  /** A property every row has, every row of the folds has. */
  lemma {:induction false} FoldsAll<T>(s: seq<T>, group: T -> int, n: nat, p: T -> bool)
    requires forall k :: 0 <= k < |s| ==> p(s[k])
    ensures forall k :: 0 <= k < |Folds(s, group, n)| ==> p(Folds(s, group, n)[k])
  {
    if n > 0 {
      FoldsAll(s, group, n - 1, p);
      InGroupAll(s, group, n - 1, p);
    }
  }

  lemma {:induction false} InRangeStep<T>(s: seq<T>, group: T -> int, n: nat)
    ensures multiset(InRange(s, group, n + 1)) == multiset(InRange(s, group, n)) + multiset(InGroup(s, group, n))
    decreases |s|
  {
    if s != [] {
      InRangeStep(s[1..], group, n);
    }
  }

  /** The folds hold every row whose group is in range, each once. */
  lemma {:induction false} FoldsPartition<T>(s: seq<T>, group: T -> int, n: nat)
    ensures multiset(Folds(s, group, n)) == multiset(InRange(s, group, n))
  {
    if n == 0 {
      InRangeEmpty(s, group);
    } else {
      var m := n - 1;
      FoldsPartition(s, group, m);
      InRangeStep(s, group, m);
      FoldsStep(s, group, m);
      MultisetStep(multiset(Folds(s, group, m + 1)), multiset(Folds(s, group, m)),
                   multiset(InRange(s, group, m + 1)), multiset(InRange(s, group, m)),
                   multiset(InGroup(s, group, m)));
      assert m + 1 == n;
    }
  }

  lemma MultisetStep<T>(f1: multiset<T>, f0: multiset<T>, r1: multiset<T>, r0: multiset<T>, g: multiset<T>)
    requires f0 == r0 && f1 == f0 + g && r1 == r0 + g
    ensures f1 == r1
  {
  }

  lemma FoldsStep<T>(s: seq<T>, group: T -> int, n: nat)
    ensures multiset(Folds(s, group, n + 1)) == multiset(Folds(s, group, n)) + multiset(InGroup(s, group, n))
  {
  }

  lemma {:induction false} InRangeEmpty<T>(s: seq<T>, group: T -> int)
    ensures InRange(s, group, 0) == []
    decreases |s|
  {
    if s != [] {
      InRangeEmpty(s[1..], group);
    }
  }

  lemma {:induction false} InRangeAll<T>(s: seq<T>, group: T -> int, n: int)
    requires forall k :: 0 <= k < |s| ==> 0 <= group(s[k]) < n
    ensures InRange(s, group, n) == s
    decreases |s|
  {
    if s != [] {
      assert forall k :: 0 <= k < |s[1..]| ==> s[1..][k] == s[k + 1];
      InRangeAll(s[1..], group, n);
    }
  }

  /** When every group is in [0, n), the folds are a permutation of the rows. */
  lemma FoldsPermutation<T>(s: seq<T>, group: T -> int, n: nat)
    requires forall k :: 0 <= k < |s| ==> 0 <= group(s[k]) < n
    ensures multiset(Folds(s, group, n)) == multiset(s)
  {
    FoldsPartition(s, group, n);
    InRangeAll(s, group, n);
  }

  /** Group i of the rows mapped by the scorer of fold i, for the folds
      0, …, n-1 in order. */
  function ConcatFolds<T, U>(s: seq<T>, group: T -> int, scorer: int -> (T -> U), n: nat): seq<U> {
    if n == 0 then [] else ConcatFolds(s, group, scorer, n - 1) + MapSeq(InGroup(s, group, n - 1), scorer(n - 1))
  }

  /** Element k of the mapped folds is element k of the folds, mapped by
      the scorer of its own group. */
  lemma {:induction false} ConcatFoldsAt<T, U>(s: seq<T>, group: T -> int, scorer: int -> (T -> U), n: nat, k: nat)
    requires k < |ConcatFolds(s, group, scorer, n)|
    ensures k < |Folds(s, group, n)| && 0 <= group(Folds(s, group, n)[k]) < n
    ensures ConcatFolds(s, group, scorer, n)[k] == scorer(group(Folds(s, group, n)[k]))(Folds(s, group, n)[k])
  {
    var prev := ConcatFolds(s, group, scorer, n - 1);
    var before := Folds(s, group, n - 1);
    var test := InGroup(s, group, n - 1);
    ConcatFoldsLength(s, group, scorer, n - 1);
    if k < |prev| {
      ConcatFoldsAt(s, group, scorer, n - 1, k);
      assert ConcatFolds(s, group, scorer, n)[k] == prev[k];
      assert Folds(s, group, n)[k] == before[k];
    } else {
      var j := k - |prev|;
      assert ConcatFolds(s, group, scorer, n)[k] == MapSeq(test, scorer(n - 1))[j];
      assert Folds(s, group, n)[k] == test[j];
    }
  }

  lemma {:induction false} ConcatFoldsLength<T, U>(s: seq<T>, group: T -> int, scorer: int -> (T -> U), n: nat)
    ensures |ConcatFolds(s, group, scorer, n)| == |Folds(s, group, n)|
  {
    if n > 0 {
      ConcatFoldsLength(s, group, scorer, n - 1);
    }
  }

  // ---------------------------------------------------------------------
  // The fold loop (`run_cv_training`)

  /** Fold `i`: the model fitted on the rows outside group `i` predicts the
      rows of group `i`. */
  function PredictFold<T>(all: seq<T>, group: T -> int, predict: (seq<T>, T) -> real, i: int): (r: seq<Predicted<T>>)
    ensures |r| == |InGroup(all, group, i)|
    ensures forall k :: 0 <= k < |r| ==>
      (r[k].item == InGroup(all, group, i)[k] && r[k].prediction == predict(OutOfGroup(all, group, i), r[k].item))
  {
    var train := OutOfGroup(all, group, i);
    var test := InGroup(all, group, i);
    seq(|test|, k requires 0 <= k < |test| => Predicted(test[k], predict(train, test[k])))
  }

  /** The predicted folds 0, …, n-1, concatenated. */
  function CvPredictions<T>(all: seq<T>, group: T -> int, predict: (seq<T>, T) -> real, n: nat): seq<Predicted<T>> {
    if n == 0 then [] else CvPredictions(all, group, predict, n - 1) + PredictFold(all, group, predict, n - 1)
  }

  /** The rows of a prediction table. */
  function Items<T>(ps: seq<Predicted<T>>): (r: seq<T>)
    ensures |r| == |ps| && forall k :: 0 <= k < |r| ==> r[k] == ps[k].item
  {
    seq(|ps|, k requires 0 <= k < |ps| => ps[k].item)
  }

  /** The rows predicted are the folds. */
  lemma {:induction false} CvPredictionsItems<T>(all: seq<T>, group: T -> int, predict: (seq<T>, T) -> real, n: nat)
    ensures Items(CvPredictions(all, group, predict, n)) == Folds(all, group, n)
  {
    if n > 0 {
      CvPredictionsItems(all, group, predict, n - 1);
      assert Items(PredictFold(all, group, predict, n - 1)) == InGroup(all, group, n - 1);
      assert Items(CvPredictions(all, group, predict, n)) ==
             Items(CvPredictions(all, group, predict, n - 1)) + Items(PredictFold(all, group, predict, n - 1));
    }
  }

  /** Every prediction comes from the model of the row's own fold, which
      was fitted without any row of that fold. */
  lemma {:induction false} CvNoLeak<T>(all: seq<T>, group: T -> int, predict: (seq<T>, T) -> real, n: nat, k: nat)
    requires k < |CvPredictions(all, group, predict, n)|
    ensures var p := CvPredictions(all, group, predict, n)[k];
      0 <= group(p.item) < n &&
      p.prediction == predict(OutOfGroup(all, group, group(p.item)), p.item) &&
      forall j :: 0 <= j < |OutOfGroup(all, group, group(p.item))| ==>
        group(OutOfGroup(all, group, group(p.item))[j]) != group(p.item)
  {
    var prev := CvPredictions(all, group, predict, n - 1);
    var fold := PredictFold(all, group, predict, n - 1);
    assert CvPredictions(all, group, predict, n) == prev + fold;
    if k < |prev| {
      CvNoLeak(all, group, predict, n - 1, k);
      assert (prev + fold)[k] == prev[k];
    } else {
      assert (prev + fold)[k] == fold[k - |prev|];
      assert fold[k - |prev|].item == InGroup(all, group, n - 1)[k - |prev|];
    }
  }

  /** Every row whose group is in [0, 10) is predicted exactly once. */
  lemma CvPredictsEveryRowOnce<T>(all: seq<T>, group: T -> int, predict: (seq<T>, T) -> real)
    requires forall k :: 0 <= k < |all| ==> 0 <= group(all[k]) < NCvGroups
    ensures multiset(Items(CvPredictions(all, group, predict, NCvGroups))) == multiset(all)
  {
    CvPredictionsItems(all, group, predict, NCvGroups);
    FoldsPermutation(all, group, NCvGroups);
  }

  /** The feature importances of the ten fold models. */
  function FoldImportances<T>(all: seq<T>, group: T -> int, importance: seq<T> -> seq<real>, n: nat): (r: seq<seq<real>>)
    ensures |r| == n
    ensures forall i :: 0 <= i < n ==> r[i] == importance(OutOfGroup(all, group, i))
  {
    if n == 0 then [] else FoldImportances(all, group, importance, n - 1) + [importance(OutOfGroup(all, group, n - 1))]
  }

  /** `run_cv_training`: the predicted folds in order; when `scoreDf` is
      given, its rows of each fold in the same order; when `saveKey` is
      given, the importances of the ten fold models. */
  method RunCvTraining<T>(all: seq<T>, group: T -> int, predict: (seq<T>, T) -> real, importance: seq<T> -> seq<real>,
                          scoreDf: Option<seq<T>>, saveKey: Option<string>)
    returns (tests: seq<Predicted<T>>, scoreTests: Option<seq<T>>, importances: Option<seq<seq<real>>>)
    ensures tests == CvPredictions(all, group, predict, NCvGroups)
    ensures scoreTests.Some? <==> scoreDf.Some?
    ensures scoreDf.Some? ==> scoreTests.value == Folds(scoreDf.value, group, NCvGroups)
    ensures importances.Some? <==> saveKey.Some?
    ensures saveKey.Some? ==> importances.value == FoldImportances(all, group, importance, NCvGroups)
  {
    tests := [];
    var scored: seq<T> := [];
    var imps: seq<seq<real>> := [];
    for i := 0 to NCvGroups
      invariant tests == CvPredictions(all, group, predict, i)
      invariant scoreDf.Some? ==> scored == Folds(scoreDf.value, group, i)
      invariant saveKey.Some? ==> imps == FoldImportances(all, group, importance, i)
    {
      var train := OutOfGroup(all, group, i);
      tests := tests + PredictFold(all, group, predict, i);
      if scoreDf.Some? {
        scored := scored + InGroup(scoreDf.value, group, i);
      }
      if saveKey.Some? {
        imps := imps + [importance(train)];
      }
    }
    scoreTests := if scoreDf.Some? then Some(scored) else None;
    importances := if saveKey.Some? then Some(imps) else None;
  }

  // ---------------------------------------------------------------------
  // One row per peptide (`sort_values(...).drop_duplicates(subset=['peptide'])`)

  /** Adds `x` to a table with distinct keys: it replaces the row of its
      key when it scores strictly higher, and is appended when its key is
      new. */
  function Upsert<T>(r: seq<T>, x: T, key: T -> string, score: T -> real): (r': seq<T>)
    requires forall i, j :: 0 <= i < j < |r| ==> key(r[i]) != key(r[j])
    ensures forall i, j :: 0 <= i < j < |r'| ==> key(r'[i]) != key(r'[j])
    ensures |r| <= |r'| <= |r| + 1
    ensures forall k :: 0 <= k < |r| ==> key(r'[k]) == key(r[k])
    ensures |r'| == |r| + 1 ==> r'[|r|] == x
  {
    var i := IndexOf(MapSeq(r, key), key(x));
    if i == |r| then r + [x]
    else if score(x) > score(r[i]) then r[i := x]
    else r
  }

  /** Each row after an upsert is `x` or the row that was there. */
  lemma UpsertSource<T>(r: seq<T>, x: T, key: T -> string, score: T -> real, k: nat)
    requires forall i, j :: 0 <= i < j < |r| ==> key(r[i]) != key(r[j])
    requires k < |Upsert(r, x, key, score)|
    ensures Upsert(r, x, key, score)[k] == x || (k < |r| && Upsert(r, x, key, score)[k] == r[k])
  {
  }

  /** After an upsert, `x`'s key has a row: returns its position. */
  lemma UpsertHasKey<T>(r: seq<T>, x: T, key: T -> string, score: T -> real) returns (k: nat)
    requires forall i, j :: 0 <= i < j < |r| ==> key(r[i]) != key(r[j])
    ensures k < |Upsert(r, x, key, score)| && key(Upsert(r, x, key, score)[k]) == key(x)
  {
    k := IndexOf(MapSeq(r, key), key(x));
  }

  /** An upsert never lowers the score at a position. */
  lemma UpsertKeeps<T>(r: seq<T>, x: T, key: T -> string, score: T -> real, k: nat)
    requires forall i, j :: 0 <= i < j < |r| ==> key(r[i]) != key(r[j])
    requires k < |r|
    ensures k < |Upsert(r, x, key, score)| && score(r[k]) <= score(Upsert(r, x, key, score)[k])
  {
  }

  /** After an upsert, the row of `x`'s key scores at least as high as `x`. */
  lemma UpsertBest<T>(r: seq<T>, x: T, key: T -> string, score: T -> real, k: nat)
    requires forall i, j :: 0 <= i < j < |r| ==> key(r[i]) != key(r[j])
    requires k < |Upsert(r, x, key, score)| && key(Upsert(r, x, key, score)[k]) == key(x)
    ensures score(x) <= score(Upsert(r, x, key, score)[k])
  {
  }

  /** The best-scored row of every key, in order of first appearance.
      The descending-score order of the sorted table is not kept, and
      among rows with equal scores the earliest is kept: a choice of this
      model, since the unstable sort leaves the survivor unspecified. Its
      keys are distinct and cover every key of the input. */
  function BestByKey<T>(rows: seq<T>, key: T -> string, score: T -> real): (r: seq<T>)
    ensures forall i, j :: 0 <= i < j < |r| ==> key(r[i]) != key(r[j])
    decreases |rows|
  {
    if rows == [] then []
    else Upsert(BestByKey(rows[..|rows| - 1], key, score), rows[|rows| - 1], key, score)
  }

  /** Every key of the input has a kept row: returns its position. */
  lemma {:induction false} BestByKeyCovers<T>(rows: seq<T>, key: T -> string, score: T -> real, i: nat) returns (k: nat)
    requires i < |rows|
    ensures k < |BestByKey(rows, key, score)| && key(BestByKey(rows, key, score)[k]) == key(rows[i])
    decreases |rows|
  {
    var prefix := rows[..|rows| - 1];
    var x := rows[|rows| - 1];
    var best := BestByKey(prefix, key, score);
    assert BestByKey(rows, key, score) == Upsert(best, x, key, score);
    if i == |rows| - 1 {
      k := UpsertHasKey(best, x, key, score);
    } else {
      assert prefix[i] == rows[i];
      k := BestByKeyCovers(prefix, key, score, i);
    }
  }

  /** The kept row of a key scores at least as high as every row of that
      key. */
  lemma {:induction false} BestByKeyIsMax<T>(rows: seq<T>, key: T -> string, score: T -> real, i: nat, k: nat)
    requires i < |rows| && k < |BestByKey(rows, key, score)|
    requires key(BestByKey(rows, key, score)[k]) == key(rows[i])
    ensures score(rows[i]) <= score(BestByKey(rows, key, score)[k])
    decreases |rows|
  {
    var prefix := rows[..|rows| - 1];
    var x := rows[|rows| - 1];
    var best := BestByKey(prefix, key, score);
    var r := Upsert(best, x, key, score);
    assert BestByKey(rows, key, score) == r;
    if i < |prefix| {
      assert prefix[i] == rows[i];
      var j := BestByKeyCovers(prefix, key, score, i);
      BestByKeyIsMax(prefix, key, score, i, j);
      assert key(r[j]) == key(r[k]);
      UpsertKeeps(best, x, key, score, j);
    } else {
      UpsertBest(best, x, key, score, k);
    }
  }

  /** Every kept row is a row of the input: returns its index. */
  lemma {:induction false} BestByKeySource<T>(rows: seq<T>, key: T -> string, score: T -> real, k: nat) returns (i: nat)
    requires k < |BestByKey(rows, key, score)|
    ensures i < |rows| && BestByKey(rows, key, score)[k] == rows[i]
    decreases |rows|
  {
    var prefix := rows[..|rows| - 1];
    var x := rows[|rows| - 1];
    var best := BestByKey(prefix, key, score);
    var r := Upsert(best, x, key, score);
    assert BestByKey(rows, key, score) == r;
    UpsertSource(best, x, key, score, k);
    if r[k] == x {
      i := |rows| - 1;
    } else {
      var i' := BestByKeySource(prefix, key, score, k);
      i := i';
      assert prefix[i'] == rows[i'];
    }
  }

  /** `scored.sort_values(score, ascending=False).drop_duplicates('peptide')`:
      one row per peptide, the one with the highest score. */
  function BestPerPeptide<T>(scored: seq<Predicted<T>>, peptide: T -> string): (r: seq<Predicted<T>>)
  {
    BestByKey(scored, (p: Predicted<T>) => peptide(p.item), (p: Predicted<T>) => p.prediction)
  }

  /** The two-stage training of `train_models`: groups by protein, the
      first cross-validation over all rows, one best row per peptide, and
      the second cross-validation over those rows, which also regroups the
      first-stage table by fold. */
  method TrainModels(rows: seq<TrainRow>, shuffled: seq<string>, predict1: (seq<GroupedRow>, GroupedRow) -> real,
                     predict2: (seq<Predicted<GroupedRow>>, Predicted<GroupedRow>) -> real,
                     importance: seq<Predicted<GroupedRow>> -> seq<real>)
    returns (uniqueScored: seq<Predicted<Predicted<GroupedRow>>>, allScored: seq<Predicted<GroupedRow>>)
    requires IsShuffle(shuffled, ProteinIds(rows))
    ensures var grouped := CreateCvGroups(rows, shuffled);
      var scored := CvPredictions(grouped, (g: GroupedRow) => g.cvGroup, predict1, NCvGroups);
      var unique := BestPerPeptide(scored, (g: GroupedRow) => g.row.peptide);
      uniqueScored == CvPredictions(unique, (p: Predicted<GroupedRow>) => p.item.cvGroup, predict2, NCvGroups) &&
      allScored == Folds(scored, (p: Predicted<GroupedRow>) => p.item.cvGroup, NCvGroups)
  {
    var grouped := CreateCvGroups(rows, shuffled);
    var scored, _, _ := RunCvTraining(grouped, (g: GroupedRow) => g.cvGroup, predict1,
                                      (train: seq<GroupedRow>) => [], None, None);
    var unique := BestPerPeptide(scored, (g: GroupedRow) => g.row.peptide);
    var all, imps;
    uniqueScored, all, imps := RunCvTraining(unique, (p: Predicted<GroupedRow>) => p.item.cvGroup, predict2,
                                             importance, Some(scored), Some("combined"));
    allScored := all.value;
  }
}
