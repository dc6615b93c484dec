/** Kozak similarity scoring: a 23-nucleotide window around a candidate
    start codon (10 bases before, the codon, 10 after) is scored against a
    23 x 5 position/base weight table (bases A, T, G, C, other) and the sum is
    normalised by the largest score the table allows. Weights are exact
    reals. */
module Kozak {
  import opened Common

  const WindowLength: nat := 23

  const Weights: seq<seq<real>> := [
    [0.04210526, 0.0, 0.03157895, 0.05263158, 0.0],
    [0.04210526, 0.05263158, 0.10526316, 0.0625, 0.0],
    [0.03157895, 0.04210526, 0.05263158, 0.07368421, 0.0],
    [0.03157895, 0.01052632, 0.04210526, 0.05263158, 0.0],
    [0.08421053, 0.07368421, 0.18947368, 0.10526316, 0.0],
    [0.04210526, 0.05263158, 0.05263158, 0.08421053, 0.0],
    [0.12631579, 0.0625, 0.12631579, 0.21052632, 0.0],
    [0.83157895, 0.12631579, 0.65263158, 0.16842105, 0.0],
    [0.15789474, 0.06315789, 0.11578947, 0.2, 0.0],
    [0.21052632, 0.09473684, 0.31578947, 0.51578947, 0.0],
    [0.0, 0.0, 0.0, 0.0, 0.0],
    [0.0, 0.0, 0.0, 0.0, 0.0],
    [0.0, 0.0, 0.0, 0.0, 0.0],
    [0.24210526, 0.16666667, 0.53684211, 0.13684211, 0.0],
    [0.15789474, 0.09473684, 0.09473684, 0.24210526, 0.0],
    [0.05263158, 0.08421053, 0.14736842, 0.09473684, 0.0],
    [0.07216495, 0.05263158, 0.10526316, 0.06315789, 0.0],
    [0.0, 0.0, 0.0, 0.05263158, 0.0],
    [0.05263158, 0.05263158, 0.10526316, 0.09473684, 0.0],
    [0.04210526, 0.03157895, 0.05263158, 0.04210526, 0.0],
    [0.0, 0.0, 0.0, 0.0, 0.0],
    [0.04210526, 0.04210526, 0.08421053, 0.07368421, 0.0],
    [0.0625, 0.04210526, 0.09473684, 0.05263158, 0.0]
  ]

  /** The table has one row of five weights per window position. */
  lemma WeightShape()
    ensures |Weights| == WindowLength
    ensures forall k :: 0 <= k < |Weights| ==> |Weights[k]| == 5
  {
  }

  /** Every weight is non-negative; the column of unknown bases and the three
      rows of the centred codon are all zero. */
  lemma WeightValues()
    ensures |Weights| == WindowLength
    ensures forall k :: 0 <= k < |Weights| ==> |Weights[k]| == 5
    ensures forall k, j :: 0 <= k < |Weights| && 0 <= j < |Weights[k]| ==> Weights[k][j] >= 0.0
    ensures forall k :: 0 <= k < |Weights| ==> Weights[k][4] == 0.0
    ensures forall k, j :: 10 <= k <= 12 && 0 <= j < 5 ==> Weights[k][j] == 0.0
  {
  }

  /** `KOZAK_SIMILARITY_WEIGHTS.max(axis=1)`: the largest weight of each row. */
  const RowMaxima: seq<real> := [
    0.05263158, 0.10526316, 0.07368421, 0.05263158, 0.18947368, 0.08421053,
    0.21052632, 0.83157895, 0.2, 0.51578947, 0.0, 0.0,
    0.0, 0.53684211, 0.24210526, 0.14736842, 0.10526316, 0.05263158,
    0.10526316, 0.05263158, 0.0, 0.08421053, 0.09473684
  ]

  /** Each entry of `RowMaxima` is the maximum of its row: no weight of the
      row exceeds it and the row contains it. */
  lemma RowMaximaAreMaxima()
    ensures |RowMaxima| == |Weights| == WindowLength
    ensures forall k, j :: 0 <= k < |Weights| && 0 <= j < |Weights[k]| ==> Weights[k][j] <= RowMaxima[k]
    ensures forall k :: 0 <= k < |Weights| ==> RowMaxima[k] in Weights[k]
  {
    RowMaximaBound();
    RowMaximaAttained();
  }

  lemma RowMaximaBound()
    ensures |RowMaxima| == |Weights|
    ensures forall k, j :: 0 <= k < |Weights| && 0 <= j < |Weights[k]| ==> Weights[k][j] <= RowMaxima[k]
  {
  }

  lemma RowMaximaAttained()
    ensures |RowMaxima| == |Weights|
    ensures forall k :: 0 <= k < |Weights| ==> RowMaxima[k] in Weights[k]
  {
    assert Weights[0][3] == RowMaxima[0];
    assert Weights[1][2] == RowMaxima[1];
    assert Weights[2][3] == RowMaxima[2];
    assert Weights[3][3] == RowMaxima[3];
    assert Weights[4][2] == RowMaxima[4];
    assert Weights[5][3] == RowMaxima[5];
    assert Weights[6][3] == RowMaxima[6];
    assert Weights[7][0] == RowMaxima[7];
    assert Weights[8][3] == RowMaxima[8];
    assert Weights[9][3] == RowMaxima[9];
    assert Weights[10][0] == RowMaxima[10];
    assert Weights[11][0] == RowMaxima[11];
    assert Weights[12][0] == RowMaxima[12];
    assert Weights[13][2] == RowMaxima[13];
    assert Weights[14][3] == RowMaxima[14];
    assert Weights[15][2] == RowMaxima[15];
    assert Weights[16][2] == RowMaxima[16];
    assert Weights[17][3] == RowMaxima[17];
    assert Weights[18][2] == RowMaxima[18];
    assert Weights[19][2] == RowMaxima[19];
    assert Weights[20][0] == RowMaxima[20];
    assert Weights[21][2] == RowMaxima[21];
    assert Weights[22][2] == RowMaxima[22];
  }

  /** Sum of the row maxima of the first `n` rows. */
  function MaxScoreUpTo(n: nat): real
    requires n <= |RowMaxima|
  {
    if n == 0 then 0.0 else MaxScoreUpTo(n - 1) + RowMaxima[n - 1]
  }

  /** `np.sum(KOZAK_SIMILARITY_WEIGHTS.max(axis=1))` written out: the sum of
      the 23 row maxima. */
  const MaxScore: real := 3.73684212

  lemma MaxScoreIsSumOfRowMaxima(n: nat)
    requires n == |RowMaxima|
    ensures MaxScoreUpTo(n) == MaxScore
  {
    assert MaxScoreUpTo(n - 22) == 0.05263158;
    assert MaxScoreUpTo(n - 21) == 0.15789474;
    assert MaxScoreUpTo(n - 20) == 0.23157895;
    assert MaxScoreUpTo(n - 19) == 0.28421053;
    assert MaxScoreUpTo(n - 18) == 0.47368421;
    assert MaxScoreUpTo(n - 17) == 0.55789474;
    assert MaxScoreUpTo(n - 16) == 0.76842106;
    assert MaxScoreUpTo(n - 15) == 1.60000001;
    assert MaxScoreUpTo(n - 14) == 1.80000001;
    assert MaxScoreUpTo(n - 13) == 2.31578948;
    assert MaxScoreUpTo(n - 12) == 2.31578948;
    assert MaxScoreUpTo(n - 11) == 2.31578948;
    assert MaxScoreUpTo(n - 10) == 2.31578948;
    assert MaxScoreUpTo(n - 9) == 2.85263159;
    assert MaxScoreUpTo(n - 8) == 3.09473685;
    assert MaxScoreUpTo(n - 7) == 3.24210527;
    assert MaxScoreUpTo(n - 6) == 3.34736843;
    assert MaxScoreUpTo(n - 5) == 3.40000001;
    assert MaxScoreUpTo(n - 4) == 3.50526317;
    assert MaxScoreUpTo(n - 3) == 3.55789475;
    assert MaxScoreUpTo(n - 2) == 3.55789475;
    assert MaxScoreUpTo(n - 1) == 3.64210528;
    assert MaxScoreUpTo(n) == 3.73684212;
  }

  /** Python's `str.upper()` on ASCII letters. */
  function UpperAscii(c: char): char {
    if 'a' <= c <= 'z' then (c as int - 32) as char else c
  }

  /** Upper-casing followed by the U -> T replacement. */
  function Normalise(c: char): char {
    var u := UpperAscii(c);
    if u == 'U' then 'T' else u
  }

  /** The column of a normalised base: A, T, G, C, anything else. */
  function BaseIndex(c: char): (i: nat)
    ensures i < 5
    ensures i == 4 <==> c !in "ATGC"
  {
    if c == 'A' then 0
    else if c == 'T' then 1
    else if c == 'G' then 2
    else if c == 'C' then 3
    else 4
  }

  /** The contribution of position `k` of the window. */
  function Term(s: string, k: nat): real
    requires k < |s| && k < |Weights|
  {
    WeightShape();
    Weights[k][BaseIndex(Normalise(s[k]))]
  }

  /** Sum of the contributions of the first `n` positions. */
  function PartialScore(s: string, n: nat): real
    requires n <= |s| && n <= |Weights|
  {
    if n == 0 then 0.0 else PartialScore(s, n - 1) + Term(s, n - 1)
  }

  /** The score of a window: AssertionError unless it is exactly 23
      characters long, otherwise the weight sum over the normalising maximum
      (the sum of all row maxima: a valid window has one position per row). */
  function KozakScore(s: string): (r: Result<real>)
    ensures r.Ok? <==> |s| == WindowLength
  {
    if |s| != WindowLength then Err(AssertionError)
    else
      Ok(PartialScore(s, |s|) / MaxScore)
  }

  /** `kozak_similarity_score`: upper-cases the window, replaces every U by a
      T, maps each base to its column and accumulates the weights. */
  method KozakSimilarityScore(sequence: string) returns (r: Result<real>)
    ensures r == KozakScore(sequence)
  {
    if |sequence| != WindowLength {
      return Err(AssertionError);
    }
    var s := seq(|sequence|, i requires 0 <= i < |sequence| => UpperAscii(sequence[i]));
    var i := 0;
    while i < |s|
      invariant |s| == WindowLength && 0 <= i <= |s|
      invariant forall k :: 0 <= k < i ==> s[k] == Normalise(sequence[k])
      invariant forall k :: i <= k < |s| ==> s[k] == UpperAscii(sequence[k])
    {
      if s[i] == 'U' {
        s := s[..i] + "T" + s[i + 1..];
      }
      i := i + 1;
    }
    var numbers := new nat[|s|];
    for k := 0 to |s|
      invariant forall j :: 0 <= j < k ==> numbers[j] == BaseIndex(s[j])
    {
      if s[k] == 'A' {
        numbers[k] := 0;
      } else if s[k] == 'T' {
        numbers[k] := 1;
      } else if s[k] == 'G' {
        numbers[k] := 2;
      } else if s[k] == 'C' {
        numbers[k] := 3;
      } else {
        numbers[k] := 4;
      }
    }
    WeightShape();
    var score := 0.0;
    for k := 0 to numbers.Length
      invariant score == PartialScore(sequence, k)
    {
      score := score + Weights[k][numbers[k]];
    }
    var maxScore := MaxScoreUpTo(numbers.Length);
    MaxScoreIsSumOfRowMaxima(numbers.Length);
    r := Ok(score / maxScore);
  }

  lemma {:induction false} PartialScoreBounds(s: string, n: nat)
    requires n <= |s| && n <= |Weights|
    ensures 0.0 <= PartialScore(s, n) <= MaxScoreUpTo(n)
  {
    WeightValues();
    if n > 0 {
      PartialScoreBounds(s, n - 1);
      RowMaximaAreMaxima();
    }
  }

  /** Every score lies in [0, 1]: each weight is non-negative and at most its
      row's maximum, and the normaliser is the sum of those maxima. */
  lemma KozakScoreInUnitInterval(s: string)
    requires |s| == WindowLength
    ensures KozakScore(s).Ok?
    ensures 0.0 <= KozakScore(s).value <= 1.0
  {
    WeightShape();
    PartialScoreBounds(s, |s|);
    MaxScoreIsSumOfRowMaxima(|s|);
    RatioInUnitInterval(PartialScore(s, |s|), MaxScore);
  }

  lemma RatioInUnitInterval(p: real, m: real)
    requires 0.0 <= p <= m && m > 0.0
    ensures 0.0 <= p / m <= 1.0
  {
  }

  lemma {:induction false} PartialScoreRespectsNormalisation(s: string, t: string, n: nat)
    requires |s| == |t| && n <= |s| && n <= |Weights|
    requires forall k :: 0 <= k < n ==> Normalise(s[k]) == Normalise(t[k])
    ensures PartialScore(s, n) == PartialScore(t, n)
  {
    if n > 0 {
      PartialScoreRespectsNormalisation(s, t, n - 1);
    }
  }

  /** Windows that differ only in letter case or in U versus T score the
      same. */
  lemma KozakScoreIgnoresCaseAndUracil(s: string, t: string)
    requires |s| == |t|
    requires forall k :: 0 <= k < |s| ==> Normalise(s[k]) == Normalise(t[k])
    ensures KozakScore(s) == KozakScore(t)
  {
    if |s| == WindowLength {
      PartialScoreRespectsNormalisation(s, t, |s|);
    }
  }

  lemma {:induction false} PartialScoreIgnoresPosition(s: string, k: nat, c: char, n: nat)
    requires k < |s| && n <= |s| && n <= |Weights|
    requires 10 <= k <= 12 || (BaseIndex(Normalise(c)) == 4 && BaseIndex(Normalise(s[k])) == 4)
    ensures PartialScore(s[k := c], n) == PartialScore(s, n)
  {
    WeightValues();
    if n > 0 {
      PartialScoreIgnoresPosition(s, k, c, n - 1);
      if n - 1 == k {
        assert Term(s[k := c], k) == 0.0 == Term(s, k);
      } else {
        assert s[k := c][n - 1] == s[n - 1];
      }
    }
  }

  /** The centred codon (positions 10 to 12) and unknown bases contribute
      nothing: rewriting a centre position, or one unknown base into another,
      leaves the score unchanged. */
  lemma KozakScoreIgnoresCentreAndUnknown(s: string, k: nat, c: char)
    requires |s| == WindowLength && k < |s|
    requires 10 <= k <= 12 || (BaseIndex(Normalise(c)) == 4 && BaseIndex(Normalise(s[k])) == 4)
    ensures KozakScore(s[k := c]) == KozakScore(s)
  {
    PartialScoreIgnoresPosition(s, k, c, |s|);
  }

  function ColumnSum(j: nat, n: nat): real
    requires j < 5 && n <= |Weights|
  {
    WeightShape();
    if n == 0 then 0.0 else ColumnSum(j, n - 1) + Weights[n - 1][j]
  }

  lemma {:induction false} PartialScoreOfConstant(s: string, n: nat)
    requires n <= |s| && n <= |Weights|
    requires forall k :: 0 <= k < |s| ==> s[k] == 'A'
    ensures PartialScore(s, n) == ColumnSum(0, n)
  {
    if n > 0 {
      PartialScoreOfConstant(s, n - 1);
    }
  }

  /** A window of 23 `A`s uses column 0 everywhere: its score is the sum of
      that column over the normaliser. */
  lemma KozakScoreAllAdenine(s: string)
    requires |s| == WindowLength
    requires forall k :: 0 <= k < |s| ==> s[k] == 'A'
    ensures KozakScore(s) == Ok(ColumnSum(0, |s|) / MaxScore)
  {
    PartialScoreOfConstant(s, |s|);
  }
}
