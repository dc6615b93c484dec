/** The composition-matched background of one peptide length: the datasets
    that feed the background of a cell line, the per-position residue
    frequencies of their canonical peptides, the sampling ratio of each
    dataset, the assembly of random peptides from per-position draws and
    their de-duplication before remapping. */
module Background {
  import opened Common
  import Constants

  /** `N_RANDOM_PEPTIDES`: random peptides drawn per dataset. */
  const NRandomPeptides: nat := 1_000_000

  /** The `AMINO_ACIDS` of the background: the 20 residues without
      isoleucine, which the remapping does not distinguish from leucine. */
  const Residues: string := "ACDEFGHKLMNPQRSTVWY"

  lemma ResiduesDistinct()
    ensures Distinct(Residues)
  {
    Constants.IncreasingDistinct(Residues);
  }

  // ---------------------------------------------------------------------
  // Datasets and their canonical peptides

  /** K562 draws its background from the datasets whose name starts with
      "K562", every other cell line from the datasets whose name does not. */
  function SelectDatasets(datasets: seq<string>, cellLine: string): (r: seq<string>)
    ensures |r| <= |datasets|
    ensures forall k :: 0 <= k < |r| ==> r[k] in datasets && (StartsWith(r[k], "K562") <==> cellLine == "K562")
    ensures forall k :: 0 <= k < |datasets| && (StartsWith(datasets[k], "K562") <==> cellLine == "K562") ==>
      datasets[k] in r
  {
    Filter(datasets, d => StartsWith(d, "K562") == (cellLine == "K562"))
  }

  /** A row of the identified-peptide table. */
  datatype PeptideRow = PeptideRow(peptide: string, datasets: seq<string>, stratum: string,
                                   piscesDiscoverable: bool, cellLines: seq<string>)

  /** The filter on the rows of one dataset: canonical, discoverable by
      PISCES, of the requested length and seen in the cell line. */
  predicate UsableCanonical(row: PeptideRow, dataset: string, pepLength: nat, cellLine: string) {
    dataset in row.datasets && row.stratum == "canonical" && row.piscesDiscoverable &&
    |row.peptide| == pepLength && cellLine in row.cellLines
  }

  /** `can_df['peptide']`: the peptides of the usable rows, in order; each
      has the requested length. */
  function CanonicalPeptides(rows: seq<PeptideRow>, dataset: string, pepLength: nat, cellLine: string): (r: seq<string>)
    ensures |r| <= |rows|
    ensures forall k :: 0 <= k < |r| ==> |r[k]| == pepLength
  {
    if rows == [] then []
    else
      var rest := CanonicalPeptides(rows[1..], dataset, pepLength, cellLine);
      if UsableCanonical(rows[0], dataset, pepLength, cellLine) then [rows[0].peptide] + rest else rest
  }

  /** Every peptide listed comes from a usable row: returns that row's index. */
  lemma {:induction false} CanonicalPeptideSource(rows: seq<PeptideRow>, dataset: string, pepLength: nat, cellLine: string, k: nat)
    returns (i: nat)
    requires k < |CanonicalPeptides(rows, dataset, pepLength, cellLine)|
    ensures i < |rows| && UsableCanonical(rows[i], dataset, pepLength, cellLine)
    ensures rows[i].peptide == CanonicalPeptides(rows, dataset, pepLength, cellLine)[k]
    decreases |rows|
  {
    var rest := CanonicalPeptides(rows[1..], dataset, pepLength, cellLine);
    if UsableCanonical(rows[0], dataset, pepLength, cellLine) {
      assert CanonicalPeptides(rows, dataset, pepLength, cellLine) == [rows[0].peptide] + rest;
      if k == 0 {
        i := 0;
      } else {
        var j := CanonicalPeptideSource(rows[1..], dataset, pepLength, cellLine, k - 1);
        i := j + 1;
        assert rows[i] == rows[1..][j];
      }
    } else {
      assert CanonicalPeptides(rows, dataset, pepLength, cellLine) == rest;
      var j := CanonicalPeptideSource(rows[1..], dataset, pepLength, cellLine, k);
      i := j + 1;
      assert rows[i] == rows[1..][j];
    }
  }

  /** Every usable row's peptide is listed. */
  lemma {:induction false} CanonicalPeptidesComplete(rows: seq<PeptideRow>, dataset: string, pepLength: nat, cellLine: string)
    ensures forall i :: 0 <= i < |rows| && UsableCanonical(rows[i], dataset, pepLength, cellLine) ==>
      rows[i].peptide in CanonicalPeptides(rows, dataset, pepLength, cellLine)
    decreases |rows|
  {
    if rows != [] {
      var r := CanonicalPeptides(rows, dataset, pepLength, cellLine);
      var rest := CanonicalPeptides(rows[1..], dataset, pepLength, cellLine);
      CanonicalPeptidesComplete(rows[1..], dataset, pepLength, cellLine);
      assert forall x :: x in rest ==> x in r;
      forall i | 0 <= i < |rows| && UsableCanonical(rows[i], dataset, pepLength, cellLine)
        ensures rows[i].peptide in r
      {
        if i > 0 {
          assert rows[i] == rows[1..][i - 1];
        }
      }
    }
  }

  // ---------------------------------------------------------------------
  // Per-position residue frequencies

  /** How many of `peptides` have residue `c` at position `p`. */
  function PositionCount(peptides: seq<string>, p: nat, c: char): (n: nat)
    ensures n <= |peptides|
  {
    if peptides == [] then 0
    else
      var last := peptides[|peptides| - 1];
      PositionCount(peptides[..|peptides| - 1], p, c) + (if p < |last| && last[p] == c then 1 else 0)
  }

  /** The share of `peptides` with residue `c` at position `p`. */
  function Frequency(peptides: seq<string>, p: nat, c: char): real
    requires |peptides| > 0
  {
    PositionCount(peptides, p, c) as real / |peptides| as real
  }

  /** One peptide more adds its own residue `p` to the count. */
  lemma PositionCountSnoc(peptides: seq<string>, i: nat, p: nat, c: char)
    requires i < |peptides|
    ensures PositionCount(peptides[..i + 1], p, c) ==
      PositionCount(peptides[..i], p, c) + (if p < |peptides[i]| && peptides[i][p] == c then 1 else 0)
  {
    assert peptides[..i + 1][..i] == peptides[..i];
  }

  /** Every residue of `q` is in `alphabet`. */
  predicate KnownPeptide(q: string, alphabet: string) {
    forall p :: 0 <= p < |q| ==> q[p] in alphabet
  }

  /** No residue makes `alphabet.index` raise. */
  predicate KnownResidues(peptides: seq<string>, alphabet: string) {
    forall k :: 0 <= k < |peptides| ==> KnownPeptide(peptides[k], alphabet)
  }

  /** The counting loop over `alphabet` (`AMINO_ACIDS`): cell `[a, p]`
      counts the peptides with residue `a` at position `p`; the first
      residue outside the alphabet raises ValueError. */
  method CountResidues(peptides: seq<string>, pepLength: nat, alphabet: string) returns (r: Result<array2<real>>)
    requires Distinct(alphabet)
    requires forall k :: 0 <= k < |peptides| ==> |peptides[k]| == pepLength
    ensures r.Err? <==> !KnownResidues(peptides, alphabet)
    ensures r.Err? ==> r.error == ValueError
    ensures r.Ok? ==> fresh(r.value) && r.value.Length0 == |alphabet| && r.value.Length1 == pepLength
    ensures r.Ok? ==> forall a, p :: 0 <= a < |alphabet| && 0 <= p < pepLength ==>
      r.value[a, p] == PositionCount(peptides, p, alphabet[a]) as real
  {
    var counts := new real[|alphabet|, pepLength]((a, p) => 0.0);
    for i := 0 to |peptides|
      invariant forall k :: 0 <= k < i ==> KnownPeptide(peptides[k], alphabet)
      invariant forall a, p :: 0 <= a < |alphabet| && 0 <= p < pepLength ==>
        counts[a, p] == PositionCount(peptides[..i], p, alphabet[a]) as real
    {
      var peptide := peptides[i];
      for j := 0 to |peptide|
        invariant forall p :: 0 <= p < j ==> peptide[p] in alphabet
        invariant forall a, p :: 0 <= a < |alphabet| && 0 <= p < pepLength ==>
          counts[a, p] == PositionCount(peptides[..i], p, alphabet[a]) as real +
            (if p < j && peptide[p] == alphabet[a] then 1.0 else 0.0)
      {
        var aaIdx := IndexOf(alphabet, peptide[j]);
        if aaIdx == |alphabet| {
          assert !KnownPeptide(peptides[i], alphabet);
          return Err(ValueError);
        }
        counts[aaIdx, j] := counts[aaIdx, j] + 1.0;
      }
      forall a, p | 0 <= a < |alphabet| && 0 <= p < pepLength
        ensures counts[a, p] == PositionCount(peptides[..i + 1], p, alphabet[a]) as real
      {
        PositionCountSnoc(peptides, i, p, alphabet[a]);
      }
    }
    assert peptides[..|peptides|] == peptides;
    return Ok(counts);
  }

  /** `counts /= n`, in place. */
  method DivideAll(counts: array2<real>, n: real)
    requires n != 0.0
    modifies counts
    ensures forall a, p :: 0 <= a < counts.Length0 && 0 <= p < counts.Length1 ==>
      counts[a, p] == old(counts[a, p]) / n
  {
    for a := 0 to counts.Length0
      invariant forall a', p :: 0 <= a' < counts.Length0 && 0 <= p < counts.Length1 ==>
        counts[a', p] == if a' < a then old(counts[a', p]) / n else old(counts[a', p])
    {
      for p := 0 to counts.Length1
        invariant forall a', p' :: 0 <= a' < counts.Length0 && 0 <= p' < counts.Length1 ==>
          counts[a', p'] == if a' < a || (a' == a && p' < p) then old(counts[a', p']) / n else old(counts[a', p'])
      {
        counts[a, p] := counts[a, p] / n;
      }
    }
  }

  /** The counting loop followed by `counts /= can_df.shape[0]`: cell
      `[a, p]` is the share of the peptides with residue `a` at position
      `p`; a residue outside the alphabet raises ValueError. */
  method PositionFrequencies(peptides: seq<string>, pepLength: nat, alphabet: string) returns (r: Result<array2<real>>)
    requires Distinct(alphabet)
    requires |peptides| > 0
    requires forall k :: 0 <= k < |peptides| ==> |peptides[k]| == pepLength
    ensures r.Err? <==> !KnownResidues(peptides, alphabet)
    ensures r.Err? ==> r.error == ValueError
    ensures r.Ok? ==> fresh(r.value) && r.value.Length0 == |alphabet| && r.value.Length1 == pepLength
    ensures r.Ok? ==> forall a, p :: 0 <= a < |alphabet| && 0 <= p < pepLength ==>
      r.value[a, p] == Frequency(peptides, p, alphabet[a])
  {
    r := CountResidues(peptides, pepLength, alphabet);
    if r.Ok? {
      DivideAll(r.value, |peptides| as real);
    }
  }

  /** The column sum of the counts at position `p` over `alphabet`. */
  function ColumnTotal(peptides: seq<string>, p: nat, alphabet: string): nat
  {
    if alphabet == [] then 0 else PositionCount(peptides, p, alphabet[0]) + ColumnTotal(peptides, p, alphabet[1..])
  }

  /** One more peptide adds, to the column sum, the occurrences of its
      residue `p` in the alphabet. */
  lemma {:induction false} ColumnTotalSnoc(peptides: seq<string>, q: string, p: nat, alphabet: string)
    ensures ColumnTotal(peptides + [q], p, alphabet) ==
      ColumnTotal(peptides, p, alphabet) + (if p < |q| then Count(alphabet, q[p]) else 0)
    decreases |alphabet|
  {
    if alphabet != [] {
      assert (peptides + [q])[..|peptides|] == peptides;
      ColumnTotalSnoc(peptides, q, p, alphabet[1..]);
    }
  }

  /** Before the division, each position column sums to the number of
      peptides when every residue is in the alphabet. */
  lemma {:induction false} ColumnTotalIsCount(peptides: seq<string>, p: nat, alphabet: string)
    requires Distinct(alphabet)
    requires forall k :: 0 <= k < |peptides| ==> p < |peptides[k]| && peptides[k][p] in alphabet
    ensures ColumnTotal(peptides, p, alphabet) == |peptides|
    decreases |peptides|
  {
    if peptides == [] {
      assert forall a :: 0 <= a < |alphabet| ==> PositionCount(peptides, p, alphabet[a]) == 0;
      ColumnTotalEmpty(p, alphabet);
    } else {
      var init := peptides[..|peptides| - 1];
      var last := peptides[|peptides| - 1];
      assert init + [last] == peptides;
      ColumnTotalIsCount(init, p, alphabet);
      ColumnTotalSnoc(init, last, p, alphabet);
      CountDistinct(alphabet, last[p]);
    }
  }

  lemma {:induction false} ColumnTotalEmpty(p: nat, alphabet: string)
    ensures ColumnTotal([], p, alphabet) == 0
    decreases |alphabet|
  {
    if alphabet != [] {
      ColumnTotalEmpty(p, alphabet[1..]);
    }
  }

  /** The frequencies of position `p` over `alphabet`, in alphabet order:
      column `p` of the normalised table. */
  function FrequencyColumn(peptides: seq<string>, p: nat, alphabet: string): (col: seq<real>)
    requires |peptides| > 0
    ensures |col| == |alphabet|
    ensures forall a :: 0 <= a < |alphabet| ==> col[a] == Frequency(peptides, p, alphabet[a])
  {
    if alphabet == [] then []
    else
      var rest := FrequencyColumn(peptides, p, alphabet[1..]);
      assert forall a :: 1 <= a < |alphabet| ==> alphabet[a] == alphabet[1..][a - 1];
      [Frequency(peptides, p, alphabet[0])] + rest
  }

  lemma DivideSelf(n: real)
    requires n != 0.0
    ensures n / n == 1.0
  {
  }

  lemma DivideSum(a: real, b: real, n: real)
    requires n != 0.0
    ensures (a + b) / n == a / n + b / n
  {
  }

  lemma {:induction false} FrequencyColumnSum(peptides: seq<string>, p: nat, alphabet: string)
    requires |peptides| > 0
    ensures Sum(FrequencyColumn(peptides, p, alphabet)) == ColumnTotal(peptides, p, alphabet) as real / |peptides| as real
    decreases |alphabet|
  {
    if alphabet != [] {
      var col := FrequencyColumn(peptides, p, alphabet);
      assert col[1..] == FrequencyColumn(peptides, p, alphabet[1..]);
      FrequencyColumnSum(peptides, p, alphabet[1..]);
      DivideSum(PositionCount(peptides, p, alphabet[0]) as real, ColumnTotal(peptides, p, alphabet[1..]) as real, |peptides| as real);
    }
  }

  /** After the division, each position column of the table sums to 1 when
      every residue is in the (repetition-free) alphabet, as it is for the
      background's `AMINO_ACIDS`. */
  lemma FrequenciesSumToOne(peptides: seq<string>, pepLength: nat, p: nat, alphabet: string)
    requires Distinct(alphabet)
    requires |peptides| > 0 && p < pepLength
    requires forall k :: 0 <= k < |peptides| ==> |peptides[k]| == pepLength
    requires KnownResidues(peptides, alphabet)
    ensures Sum(FrequencyColumn(peptides, p, alphabet)) == 1.0
  {
    forall k | 0 <= k < |peptides| ensures p < |peptides[k]| && peptides[k][p] in alphabet {
      assert KnownPeptide(peptides[k], alphabet);
    }
    ColumnTotalIsCount(peptides, p, alphabet);
    FrequencyColumnSum(peptides, p, alphabet);
    DivideSelf(|peptides| as real);
  }

  // ---------------------------------------------------------------------
  // Sampling ratios

  function MaxOf(xs: seq<nat>): (m: nat)
    requires xs != []
    ensures forall k :: 0 <= k < |xs| ==> xs[k] <= m
    ensures exists k :: 0 <= k < |xs| && xs[k] == m
  {
    if |xs| == 1 then xs[0]
    else
      var rest := MaxOf(xs[1..]);
      assert forall k :: 1 <= k < |xs| ==> xs[k] == xs[1..][k - 1];
      Max(xs[0], rest)
  }

  /** `count / count.max()`; with no dataset the frame has no `count`
      column and the lookup raises KeyError. */
  function Fractions(counts: seq<nat>): Result<seq<real>>
    requires forall k :: 0 <= k < |counts| ==> counts[k] > 0
  {
    if counts == [] then Err(KeyError)
    else
      var m := MaxOf(counts);
      Ok(seq(|counts|, k requires 0 <= k < |counts| => counts[k] as real / m as real))
  }

  lemma DivideByMax(a: nat, b: nat, m: nat)
    requires 0 < a <= m && b <= m
    ensures 0.0 < a as real / m as real <= 1.0
    ensures a <= b ==> a as real / m as real <= b as real / m as real
    ensures a == m ==> a as real / m as real == 1.0
  {
  }

  /** Every fraction lies in (0, 1], a larger count never gets a smaller
      fraction, and the largest dataset gets exactly 1. */
  lemma FractionsMeaning(counts: seq<nat>)
    requires forall k :: 0 <= k < |counts| ==> counts[k] > 0
    ensures Fractions(counts).Err? <==> counts == []
    ensures Fractions(counts).Err? ==> Fractions(counts).error == KeyError
    ensures Fractions(counts).Ok? ==> var f := Fractions(counts).value;
      |f| == |counts| &&
      (forall k :: 0 <= k < |f| ==> 0.0 < f[k] <= 1.0) &&
      (forall i, j :: 0 <= i < |f| && 0 <= j < |f| && counts[i] <= counts[j] ==> f[i] <= f[j]) &&
      (exists k :: 0 <= k < |f| && f[k] == 1.0)
  {
    if counts != [] {
      var m := MaxOf(counts);
      var f := Fractions(counts).value;
      forall i, j | 0 <= i < |f| && 0 <= j < |f|
        ensures 0.0 < f[i] <= 1.0 && (counts[i] <= counts[j] ==> f[i] <= f[j])
      {
        DivideByMax(counts[i], counts[j], m);
      }
      var k :| 0 <= k < |counts| && counts[k] == m;
      DivideByMax(counts[k], counts[k], m);
    }
  }

  /** What is kept of one dataset: its name, the number of distinct
      peptides and the frequency table written for it. */
  datatype Distribution = Distribution(dataset: string, count: nat, frequencies: array2<real>)

  /** The datasets among `selected` with at least one usable canonical
      peptide, in order; the others are skipped. */
  function UsedAmong(rows: seq<PeptideRow>, selected: seq<string>, pepLength: nat, cellLine: string): (r: seq<string>)
    ensures forall k :: 0 <= k < |r| ==> r[k] in selected && CanonicalPeptides(rows, r[k], pepLength, cellLine) != []
  {
    if selected == [] then []
    else
      var last := selected[|selected| - 1];
      UsedAmong(rows, selected[..|selected| - 1], pepLength, cellLine) +
        (if CanonicalPeptides(rows, last, pepLength, cellLine) != [] then [last] else [])
  }

  lemma UsedAmongSnoc(rows: seq<PeptideRow>, selected: seq<string>, i: nat, pepLength: nat, cellLine: string)
    requires i < |selected|
    ensures UsedAmong(rows, selected[..i + 1], pepLength, cellLine) ==
      UsedAmong(rows, selected[..i], pepLength, cellLine) +
        (if CanonicalPeptides(rows, selected[i], pepLength, cellLine) != [] then [selected[i]] else [])
  {
    assert selected[..i + 1][..i] == selected[..i];
  }

  /** `d` is what the loop records for `dataset`. */
  predicate Describes(d: Distribution, rows: seq<PeptideRow>, dataset: string, pepLength: nat, cellLine: string,
                      alphabet: string)
    reads d.frequencies
  {
    var peptides := CanonicalPeptides(rows, dataset, pepLength, cellLine);
    peptides != [] && d.dataset == dataset && d.count == |Dedup(peptides)| &&
    d.frequencies.Length0 == |alphabet| && d.frequencies.Length1 == pepLength &&
    forall a, p :: 0 <= a < |alphabet| && 0 <= p < pepLength ==>
      d.frequencies[a, p] == Frequency(peptides, p, alphabet[a])
  }

  /** Some dataset among `selected` has a usable peptide with a residue
      outside the alphabet. */
  predicate UnknownAmong(rows: seq<PeptideRow>, selected: seq<string>, pepLength: nat, cellLine: string,
                         alphabet: string) {
    exists k :: 0 <= k < |selected| && !KnownResidues(CanonicalPeptides(rows, selected[k], pepLength, cellLine), alphabet)
  }

  /** The loop over the datasets: one distribution per used dataset, in
      order; the first unknown residue raises ValueError. */
  method CollectDistributions(rows: seq<PeptideRow>, selected: seq<string>, pepLength: nat, cellLine: string,
                              alphabet: string)
    returns (r: Result<seq<Distribution>>)
    requires Distinct(alphabet)
    ensures r.Err? <==> UnknownAmong(rows, selected, pepLength, cellLine, alphabet)
    ensures r.Err? ==> r.error == ValueError
    ensures r.Ok? ==> var used := UsedAmong(rows, selected, pepLength, cellLine);
      |r.value| == |used| &&
      forall k :: 0 <= k < |used| ==>
        fresh(r.value[k].frequencies) && Describes(r.value[k], rows, used[k], pepLength, cellLine, alphabet)
  {
    var ds: seq<Distribution> := [];
    for i := 0 to |selected|
      invariant var used := UsedAmong(rows, selected[..i], pepLength, cellLine);
        |ds| == |used| &&
        forall k :: 0 <= k < |ds| ==> fresh(ds[k].frequencies) && Describes(ds[k], rows, used[k], pepLength, cellLine, alphabet)
      invariant forall k :: 0 <= k < i ==> KnownResidues(CanonicalPeptides(rows, selected[k], pepLength, cellLine), alphabet)
    {
      var dataset := selected[i];
      UsedAmongSnoc(rows, selected, i, pepLength, cellLine);
      ghost var used := UsedAmong(rows, selected[..i], pepLength, cellLine);
      ghost var used' := UsedAmong(rows, selected[..i + 1], pepLength, cellLine);
      var peptides := CanonicalPeptides(rows, dataset, pepLength, cellLine);
      if peptides != [] {
        var freq := PositionFrequencies(peptides, pepLength, alphabet);
        if freq.Err? {
          return Err(freq.error);
        }
        var d := Distribution(dataset, |Dedup(peptides)|, freq.value);
        assert Describes(d, rows, dataset, pepLength, cellLine, alphabet);
        forall k | 0 <= k < |ds| ensures Describes(ds[k], rows, used'[k], pepLength, cellLine, alphabet) {
          assert used'[k] == used[k];
        }
        ds := ds + [d];
      }
      assert KnownResidues(peptides, alphabet);
      forall k | 0 <= k < i + 1
        ensures KnownResidues(CanonicalPeptides(rows, selected[k], pepLength, cellLine), alphabet)
      {
        if k == i {
          assert selected[k] == dataset;
        }
      }
    }
    assert selected[..|selected|] == selected;
    return Ok(ds);
  }

  function Counts(ds: seq<Distribution>): (r: seq<nat>)
    ensures |r| == |ds|
    ensures forall k :: 0 <= k < |ds| ==> r[k] == ds[k].count
  {
    seq(|ds|, k requires 0 <= k < |ds| => ds[k].count)
  }

  /** `get_can_distro`: one distribution per used dataset of the cell line,
      in order, and the ratio of each. An unknown residue raises ValueError;
      no used dataset at all leaves the ratio frame without its `count`
      column, and the lookup raises KeyError. */
  method GetCanDistro(rows: seq<PeptideRow>, datasets: seq<string>, pepLength: nat, cellLine: string)
    returns (r: Result<(seq<Distribution>, seq<real>)>)
    ensures var selected := SelectDatasets(datasets, cellLine);
      var unknown := UnknownAmong(rows, selected, pepLength, cellLine, Residues);
      (r.Err? <==> UsedAmong(rows, selected, pepLength, cellLine) == [] || unknown) &&
      (r.Err? ==> r.error == if unknown then ValueError else KeyError)
    ensures r.Ok? ==> var used := UsedAmong(rows, SelectDatasets(datasets, cellLine), pepLength, cellLine);
      var (ds, fractions) := r.value;
      |ds| == |used| &&
      (forall k :: 0 <= k < |ds| ==> fresh(ds[k].frequencies) && Describes(ds[k], rows, used[k], pepLength, cellLine, Residues)) &&
      (forall k :: 0 <= k < |ds| ==> ds[k].count > 0) &&
      Fractions(Counts(ds)) == Ok(fractions)
  {
    var selected := SelectDatasets(datasets, cellLine);
    ResiduesDistinct();
    var collected := CollectDistributions(rows, selected, pepLength, cellLine, Residues);
    if collected.Err? {
      return Err(collected.error);
    }
    var ds := collected.value;
    if ds == [] {
      return Err(KeyError);
    }
    forall k | 0 <= k < |ds| ensures ds[k].count > 0 {
      var peptides := CanonicalPeptides(rows, ds[k].dataset, pepLength, cellLine);
      assert peptides[0] in Dedup(peptides);
    }
    var counts := Counts(ds);
    var m := MaxOf(counts);
    var fractions := seq(|counts|, k requires 0 <= k < |counts| => counts[k] as real / m as real);
    r := Ok((ds, fractions));
  }

  // ---------------------------------------------------------------------
  // Random peptides

  /** `generate_random` for one frequency table: `groups[j]` holds the
      `N_RANDOM_PEPTIDES` residues drawn for position `j`, and random
      peptide `row` takes its residue `j` from them. */
  method GenerateRandom(groups: seq<seq<char>>, pepLength: nat) returns (peptides: seq<string>)
    requires |groups| == pepLength
    requires forall j :: 0 <= j < pepLength ==> |groups[j]| == NRandomPeptides
    ensures |peptides| == NRandomPeptides
    ensures forall row :: 0 <= row < |peptides| ==> |peptides[row]| == pepLength
    ensures forall row, j :: 0 <= row < |peptides| && 0 <= j < pepLength ==> peptides[row][j] == groups[j][row]
  {
    peptides := [];
    for row := 0 to NRandomPeptides
      invariant |peptides| == row
      invariant forall r :: 0 <= r < row ==> |peptides[r]| == pepLength
      invariant forall r, j :: 0 <= r < row && 0 <= j < pepLength ==> peptides[r][j] == groups[j][r]
    {
      peptides := peptides + [seq(pepLength, j requires 0 <= j < pepLength => groups[j][row])];
    }
  }

  /** The residues at position `j` of the peptides, in row order. */
  function Column(peptides: seq<string>, j: nat): (col: seq<char>)
    requires forall row :: 0 <= row < |peptides| ==> j < |peptides[row]|
    ensures |col| == |peptides|
  {
    seq(|peptides|, row requires 0 <= row < |peptides| => peptides[row][j])
  }

  /** The assembly is a transpose: reading position `j` back from the
      random peptides gives exactly the draws for position `j`, so each
      position follows the frequencies it was drawn from. */
  lemma DrawsRecovered(groups: seq<seq<char>>, pepLength: nat, peptides: seq<string>)
    requires |groups| == pepLength
    requires forall j :: 0 <= j < pepLength ==> |groups[j]| == NRandomPeptides
    requires |peptides| == NRandomPeptides
    requires forall row :: 0 <= row < |peptides| ==> |peptides[row]| == pepLength
    requires forall row, j :: 0 <= row < |peptides| && 0 <= j < pepLength ==> peptides[row][j] == groups[j][row]
    ensures forall j :: 0 <= j < pepLength ==> Column(peptides, j) == groups[j]
  {
    forall j | 0 <= j < pepLength ensures Column(peptides, j) == groups[j] {
      assert forall row :: 0 <= row < |peptides| ==> Column(peptides, j)[row] == groups[j][row];
    }
  }

  /** `unique_pep_df.unique()`: the random peptides handed to the
      remapping, each once. */
  function UniqueRandomPeptides(peptides: seq<string>): seq<string>
  {
    Dedup(peptides)
  }

  /** Every random peptide is remapped exactly once, and nothing else is. */
  lemma UniqueRandomPeptidesOnce(peptides: seq<string>)
    ensures forall k :: 0 <= k < |peptides| ==> Count(UniqueRandomPeptides(peptides), peptides[k]) == 1
    ensures forall x :: x in UniqueRandomPeptides(peptides) ==> x in peptides
  {
    var u := UniqueRandomPeptides(peptides);
    forall k | 0 <= k < |peptides| ensures Count(u, peptides[k]) == 1 {
      CountDistinct(u, peptides[k]);
    }
  }
}
