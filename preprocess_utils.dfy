/** The steps shared by the canonical/cryptic and the spliced preprocessing:
    which remapped background datasets belong to a cell line, the background
    peptides of one dataset for a stratum, the smallest ratio-scaled pool
    size, the rounded per-dataset sample goal and the resulting pool sizes,
    and the label and null rules of the reading-frame merge. */
module PreprocessUtils {
  import opened Common
  import opened Constants
  import Background

  // ---------------------------------------------------------------------
  // Dataset eligibility

  /** `_check_dataset`: K562 takes the datasets named "K562…", B721.221 the
      "Sarkizova…" and "Abelin…" ones; any other cell line is a ValueError. */
  function CheckDataset(dataset: string, cellLine: string): (r: Result<bool>)
    ensures r.Err? <==> cellLine != "K562" && cellLine != "B721.221"
    ensures r.Err? ==> r.error == ValueError
    ensures r == Ok(true) ==> (StartsWith(dataset, "K562") <==> cellLine == "K562")
  {
    if cellLine == "K562" then Ok(StartsWith(dataset, "K562"))
    else if cellLine == "B721.221" then
      assert StartsWith(dataset, "Sarkizova") || StartsWith(dataset, "Abelin") ==> dataset[0] != 'K';
      Ok(StartsWith(dataset, "Sarkizova") || StartsWith(dataset, "Abelin"))
    else Err(ValueError)
  }

  /** No dataset is used for both cell lines. */
  lemma CheckDatasetExclusive(dataset: string)
    ensures !(CheckDataset(dataset, "K562") == Ok(true) && CheckDataset(dataset, "B721.221") == Ok(true))
  {
    if CheckDataset(dataset, "B721.221") == Ok(true) {
      assert dataset[0] != 'K';
      assert !StartsWith(dataset, "K562");
    }
  }

  /** Every dataset a cell line samples its negatives from is one whose
      residue distribution the background step computes for that line. */
  lemma CheckedDatasetHasBackground(datasets: seq<string>, k: nat, cellLine: string)
    requires k < |datasets|
    requires CheckDataset(datasets[k], cellLine) == Ok(true)
    ensures datasets[k] in Background.SelectDatasets(datasets, cellLine)
  {
  }

  // ---------------------------------------------------------------------
  // The background peptides of one dataset for one stratum (`_get_pep_df`)

  /** A row of a dataset's `peptides.csv`: the protein counts per origin.
      `strataProteins` holds the non-null `{stratum}_nProteins` cells. */
  datatype PepCountsRow = PepCountsRow(peptide: string, nCrypticProteins: int, nSplicedProteins: int,
                                       strataProteins: map<string, int>, fusionProteins: int,
                                       mutationProteins: int, tremblProteins: int)

  /** A dataset's `peptides.csv`: the strata that have a `{stratum}_nProteins`
      column in its header, and its rows. */
  datatype PepCountsTable = PepCountsTable(strata: set<string>, rows: seq<PepCountsRow>)

  /** A row of a dataset's details table. */
  datatype DetailRow = DetailRow(peptide: string, proteinId: string, sr1: Option<string>)

  function PepKey(row: PepCountsRow): string { row.peptide }
  function DetailKey(row: DetailRow): string { row.peptide }

  /** The filter on one row: no fusion, mutation or TrEMBL origin, and for
      'spliced' no cryptic but some spliced origin, for any other stratum
      some origin in the stratum and no spliced one. A null
      `{stratum}_nProteins` cell makes the condition null, and `filter`
      drops the row. */
  predicate KeepRow(row: PepCountsRow, stratum: string)
    ensures KeepRow(row, stratum) ==> row.fusionProteins == 0 && row.mutationProteins == 0 && row.tremblProteins == 0
    ensures KeepRow(row, stratum) && stratum == "spliced" ==> row.nCrypticProteins == 0 && row.nSplicedProteins > 0
    ensures KeepRow(row, stratum) && stratum != "spliced" ==>
      stratum in row.strataProteins && row.strataProteins[stratum] > 0 && row.nSplicedProteins == 0
  {
    var common := row.fusionProteins == 0 && row.mutationProteins == 0 && row.tremblProteins == 0;
    if stratum == "spliced" then row.nCrypticProteins == 0 && row.nSplicedProteins > 0 && common
    else stratum in row.strataProteins && row.strataProteins[stratum] > 0 && row.nSplicedProteins == 0 && common
  }

  /** The rows that pass the filter, in order. */
  function KeptRows(rows: seq<PepCountsRow>, stratum: string): (r: seq<PepCountsRow>)
    ensures forall k :: 0 <= k < |r| ==> r[k] in rows && KeepRow(r[k], stratum)
    ensures forall i :: 0 <= i < |rows| && KeepRow(rows[i], stratum) ==> rows[i] in r
    decreases |rows|
  {
    if rows == [] then []
    else
      assert forall i :: 1 <= i < |rows| ==> rows[i] == rows[1..][i - 1];
      var rest := KeptRows(rows[1..], stratum);
      if KeepRow(rows[0], stratum) then [rows[0]] + rest else rest
  }

  /** The two `filter` calls on `peptides.csv`. polars resolves
      `{stratum}_nProteins` against the header before it reads a row, so a
      header without that column is a ColumnNotFoundError whatever the rows
      (an empty table included); otherwise the rows that pass, in order.
      The fixed count columns are taken to be in every header. */
  function FilterRows(peps: PepCountsTable, stratum: string): (r: Result<seq<PepCountsRow>>)
    ensures r.Err? <==> stratum != "spliced" && stratum !in peps.strata
    ensures r.Err? ==> r.error == ColumnNotFoundError
    ensures r.Ok? ==> forall k :: 0 <= k < |r.value| ==> r.value[k] in peps.rows && KeepRow(r.value[k], stratum)
    ensures r.Ok? ==> forall i :: 0 <= i < |peps.rows| && KeepRow(peps.rows[i], stratum) ==> peps.rows[i] in r.value
  {
    if stratum != "spliced" && stratum !in peps.strata then Err(ColumnNotFoundError)
    else Ok(KeptRows(peps.rows, stratum))
  }

  /** `fill_null('NA')` on the `sr1` column. */
  function FillSr1(rows: seq<DetailRow>): (r: seq<DetailRow>)
    ensures |r| == |rows|
    ensures forall k :: 0 <= k < |r| ==> r[k].peptide == rows[k].peptide && r[k].proteinId == rows[k].proteinId
    ensures forall k :: 0 <= k < |r| ==> r[k].sr1 == if rows[k].sr1.Some? then rows[k].sr1 else Some("NA")
  {
    seq(|rows|, k requires 0 <= k < |rows| =>
      if rows[k].sr1.Some? then rows[k] else rows[k].(sr1 := Some("NA")))
  }

  /** The peptide column of a table. */
  function Peptides(rows: seq<PepCountsRow>): (r: seq<string>)
    ensures |r| == |rows| && forall k :: 0 <= k < |r| ==> r[k] == rows[k].peptide
  {
    seq(|rows|, k requires 0 <= k < |rows| => rows[k].peptide)
  }

  /** The details rows of one peptide. */
  function DetailsOf(dets: seq<DetailRow>, peptide: string): (r: seq<DetailRow>)
    ensures forall k :: 0 <= k < |r| ==> r[k] in dets && r[k].peptide == peptide
    ensures forall i :: 0 <= i < |dets| && dets[i].peptide == peptide ==> dets[i] in r
    decreases |dets|
  {
    if dets == [] then []
    else
      assert forall i :: 1 <= i < |dets| ==> dets[i] == dets[1..][i - 1];
      var rest := DetailsOf(dets[1..], peptide);
      if dets[0].peptide == peptide then [dets[0]] + rest else rest
  }

  /** The inner join of the selected peptides with the details on
      `peptide`, in the order of the peptides. */
  function JoinPeptides(kept: seq<PepCountsRow>, dets: seq<DetailRow>): (r: seq<DetailRow>)
    ensures forall k :: 0 <= k < |r| ==> r[k] in dets && r[k].peptide in Peptides(kept)
    decreases |kept|
  {
    if kept == [] then []
    else
      var rest := JoinPeptides(kept[1..], dets);
      assert forall x :: x in Peptides(kept[1..]) ==> x in Peptides(kept) by {
        forall x | x in Peptides(kept[1..]) ensures x in Peptides(kept) {
          var i :| 0 <= i < |kept[1..]| && Peptides(kept[1..])[i] == x;
          assert Peptides(kept)[i + 1] == x;
        }
      }
      assert Peptides(kept)[0] == kept[0].peptide;
      DetailsOf(dets, kept[0].peptide) + rest
  }

  /** A details table without repeated peptides has at most one row per
      peptide. */
  lemma {:induction false} DetailsOfUnique(dets: seq<DetailRow>, peptide: string)
    requires forall i, j :: 0 <= i < j < |dets| ==> dets[i].peptide != dets[j].peptide
    ensures |DetailsOf(dets, peptide)| <= 1
    decreases |dets|
  {
    if dets != [] {
      if dets[0].peptide == peptide {
        forall i | 0 <= i < |dets[1..]| ensures dets[1..][i].peptide != peptide {
          assert dets[1..][i] == dets[i + 1];
        }
        DetailsOfNone(dets[1..], peptide);
      } else {
        DetailsOfUnique(dets[1..], peptide);
      }
    }
  }

  /** A peptide without details rows joins with nothing. */
  lemma {:induction false} DetailsOfNone(dets: seq<DetailRow>, peptide: string)
    requires forall i :: 0 <= i < |dets| ==> dets[i].peptide != peptide
    ensures DetailsOf(dets, peptide) == []
    decreases |dets|
  {
    if dets != [] {
      assert forall i :: 0 <= i < |dets[1..]| ==> dets[1..][i] == dets[i + 1];
      DetailsOfNone(dets[1..], peptide);
    }
  }

  /** Joining peptides without repeats with details without repeats gives
      each peptide at most once. */
  lemma {:induction false} JoinPeptidesUnique(kept: seq<PepCountsRow>, dets: seq<DetailRow>)
    requires forall i, j :: 0 <= i < j < |kept| ==> kept[i].peptide != kept[j].peptide
    requires forall i, j :: 0 <= i < j < |dets| ==> dets[i].peptide != dets[j].peptide
    ensures forall i, j :: 0 <= i < j < |JoinPeptides(kept, dets)| ==>
      JoinPeptides(kept, dets)[i].peptide != JoinPeptides(kept, dets)[j].peptide
    decreases |kept|
  {
    if kept != [] {
      var head := DetailsOf(dets, kept[0].peptide);
      var rest := JoinPeptides(kept[1..], dets);
      JoinPeptidesUnique(kept[1..], dets);
      DetailsOfUnique(dets, kept[0].peptide);
      assert JoinPeptides(kept, dets) == head + rest;
      forall j | 0 <= j < |rest| ensures rest[j].peptide != kept[0].peptide {
        var i :| 0 <= i < |kept[1..]| && Peptides(kept[1..])[i] == rest[j].peptide;
        assert kept[i + 1] == kept[1..][i];
      }
    }
  }

  /** Every selected peptide that has details is in the join. */
  lemma {:induction false} JoinPeptidesComplete(kept: seq<PepCountsRow>, dets: seq<DetailRow>, i: nat, j: nat)
    requires i < |kept| && j < |dets| && kept[i].peptide == dets[j].peptide
    ensures dets[j] in JoinPeptides(kept, dets)
    decreases |kept|
  {
    if i > 0 {
      assert kept[i] == kept[1..][i - 1];
      JoinPeptidesComplete(kept[1..], dets, i - 1, j);
    }
  }

  /** `_get_pep_df`: both tables made unique by peptide, the peptides
      filtered for the stratum, `sr1` filled for 'spliced', then the inner
      join on `peptide`. */
  function GetPepDf(peps: PepCountsTable, dets: seq<DetailRow>, stratum: string): (r: Result<seq<DetailRow>>)
  {
    var up := PepCountsTable(peps.strata, UniqueBy(peps.rows, PepKey));
    var ud := UniqueBy(dets, DetailKey);
    var ud' := if stratum == "spliced" then FillSr1(ud) else ud;
    match FilterRows(up, stratum)
    case Err(e) => Err(e)
    case Ok(kept) => Ok(JoinPeptides(kept, ud'))
  }

  /** The stratum's background peptides hold each peptide once. */
  lemma GetPepDfUnique(peps: PepCountsTable, dets: seq<DetailRow>, stratum: string)
    requires GetPepDf(peps, dets, stratum).Ok?
    ensures var out := GetPepDf(peps, dets, stratum).value;
      forall i, j :: 0 <= i < j < |out| ==> out[i].peptide != out[j].peptide
  {
    var up := PepCountsTable(peps.strata, UniqueBy(peps.rows, PepKey));
    var ud := UniqueBy(dets, DetailKey);
    var ud' := if stratum == "spliced" then FillSr1(ud) else ud;
    var kept := FilterRows(up, stratum).value;
    assert kept == KeptRows(up.rows, stratum);
    assert GetPepDf(peps, dets, stratum).value == JoinPeptides(kept, ud');
    FilterRowsUnique(up.rows, stratum);
    assert forall i, j :: 0 <= i < j < |ud'| ==> ud'[i].peptide != ud'[j].peptide by {
      forall i, j | 0 <= i < j < |ud'| ensures ud'[i].peptide != ud'[j].peptide {
        assert DetailKey(ud[i]) != DetailKey(ud[j]);
      }
    }
    JoinPeptidesUnique(kept, ud');
  }

  /** Each row of the stratum's background peptides has a row of
      `peptides.csv` with its peptide that passes the filter: returns it. */
  lemma GetPepDfSource(peps: PepCountsTable, dets: seq<DetailRow>, stratum: string, k: nat) returns (i: nat)
    requires GetPepDf(peps, dets, stratum).Ok? && k < |GetPepDf(peps, dets, stratum).value|
    ensures i < |peps.rows| && peps.rows[i].peptide == GetPepDf(peps, dets, stratum).value[k].peptide
    ensures KeepRow(peps.rows[i], stratum)
  {
    var up := PepCountsTable(peps.strata, UniqueBy(peps.rows, PepKey));
    var ud' := if stratum == "spliced" then FillSr1(UniqueBy(dets, DetailKey)) else UniqueBy(dets, DetailKey);
    var kept := FilterRows(up, stratum).value;
    assert GetPepDf(peps, dets, stratum).value == JoinPeptides(kept, ud');
    var q := JoinPeptidesSource(kept, ud', k);
    var u := FilterRowsSource(up, stratum, q);
    i := UniqueBySource(peps.rows, PepKey, u);
  }

  /** The peptide of a joined row is the peptide of one selected row:
      returns its index. */
  lemma JoinPeptidesSource(kept: seq<PepCountsRow>, dets: seq<DetailRow>, k: nat) returns (q: nat)
    requires k < |JoinPeptides(kept, dets)|
    ensures q < |kept| && kept[q].peptide == JoinPeptides(kept, dets)[k].peptide
  {
    var q' :| 0 <= q' < |kept| && Peptides(kept)[q'] == JoinPeptides(kept, dets)[k].peptide;
    q := q';
  }

  /** A kept row is a row of the table that passes the filter: returns its
      index. */
  lemma FilterRowsSource(peps: PepCountsTable, stratum: string, q: nat) returns (u: nat)
    requires FilterRows(peps, stratum).Ok? && q < |FilterRows(peps, stratum).value|
    ensures u < |peps.rows| && peps.rows[u] == FilterRows(peps, stratum).value[q]
    ensures KeepRow(peps.rows[u], stratum)
  {
    var u' :| 0 <= u' < |peps.rows| && peps.rows[u'] == FilterRows(peps, stratum).value[q];
    u := u';
  }

  /** For 'spliced' every row of the background peptides has an `sr1`. */
  lemma GetPepDfSr1(peps: PepCountsTable, dets: seq<DetailRow>)
    requires GetPepDf(peps, dets, "spliced").Ok?
    ensures var out := GetPepDf(peps, dets, "spliced").value;
      forall k :: 0 <= k < |out| ==> out[k].sr1.Some?
  {
    var ud' := FillSr1(UniqueBy(dets, DetailKey));
    var kept := FilterRows(PepCountsTable(peps.strata, UniqueBy(peps.rows, PepKey)), "spliced").value;
    assert GetPepDf(peps, dets, "spliced").value == JoinPeptides(kept, ud');
    JoinFilled(kept, ud');
  }

  /** Joining against details whose `sr1` is filled gives filled rows. */
  lemma JoinFilled(kept: seq<PepCountsRow>, dets: seq<DetailRow>)
    requires forall j :: 0 <= j < |dets| ==> dets[j].sr1.Some?
    ensures forall k :: 0 <= k < |JoinPeptides(kept, dets)| ==> JoinPeptides(kept, dets)[k].sr1.Some?
  {
    var out := JoinPeptides(kept, dets);
    forall k | 0 <= k < |out| ensures out[k].sr1.Some? {
      var j :| 0 <= j < |dets| && dets[j] == out[k];
    }
  }

  predicate UniquePeptides(rows: seq<PepCountsRow>) {
    forall i, j :: 0 <= i < j < |rows| ==> rows[i].peptide != rows[j].peptide
  }

  /** Filtering a table whose peptides are distinct keeps them distinct. */
  lemma {:induction false} FilterRowsUnique(rows: seq<PepCountsRow>, stratum: string)
    requires forall a, b :: 0 <= a < b < |rows| ==> PepKey(rows[a]) != PepKey(rows[b])
    ensures UniquePeptides(KeptRows(rows, stratum))
    decreases |rows|
  {
    if rows != [] {
      var rest := KeptRows(rows[1..], stratum);
      assert forall a, b :: 0 <= a < b < |rows[1..]| ==> PepKey(rows[1..][a]) != PepKey(rows[1..][b]) by {
        forall a, b | 0 <= a < b < |rows[1..]| ensures PepKey(rows[1..][a]) != PepKey(rows[1..][b]) {
          assert rows[1..][a] == rows[a + 1] && rows[1..][b] == rows[b + 1];
        }
      }
      FilterRowsUnique(rows[1..], stratum);
      assert UniquePeptides(rest);
      forall j | 0 <= j < |rest| ensures rest[j].peptide != rows[0].peptide {
        var b :| 0 <= b < |rows[1..]| && rows[1..][b] == rest[j];
        assert PepKey(rows[0]) != PepKey(rows[b + 1]);
      }
      var kept := KeptRows(rows, stratum);
      assert kept == if KeepRow(rows[0], stratum) then [rows[0]] + rest else rest;
      if KeepRow(rows[0], stratum) {
        forall i, j | 0 <= i < j < |kept| ensures kept[i].peptide != kept[j].peptide {
          assert kept[j] == rest[j - 1];
          if i > 0 {
            assert kept[i] == rest[i - 1];
            assert rest[i - 1].peptide != rest[j - 1].peptide;
          } else {
            assert kept[i] == rows[0];
            assert rest[j - 1].peptide != rows[0].peptide;
          }
        }
      }
    }
  }

  // ---------------------------------------------------------------------
  // The smallest ratio-scaled pool size (`get_min_counts`)

  /** A remapped background dataset: its name and its two tables, `None`
      when the file cannot be read. */
  datatype DatasetPool = DatasetPool(name: string, peptides: Option<PepCountsTable>,
                                     details: Option<seq<DetailRow>>)

  /** The `try: _get_pep_df(...) except: continue` step: the background
      peptides of a dataset, `None` when reading or filtering failed. */
  function PepDfOf(pool: DatasetPool, stratum: string): (r: Option<seq<DetailRow>>)
    ensures r.Some? <==> (pool.peptides.Some? && pool.details.Some? &&
                          (stratum == "spliced" || stratum in pool.peptides.value.strata))
    ensures r.Some? ==> r == Some(GetPepDf(pool.peptides.value, pool.details.value, stratum).value)
  {
    if pool.peptides.None? || pool.details.None? then None
    else
      match GetPepDf(pool.peptides.value, pool.details.value, stratum)
      case Err(_) => None
      case Ok(rows) => Some(rows)
  }

  /** The starting value of the running minimum. */
  const Sentinel: real := 1_000_000_000.0

  /** One dataset's contribution: `None` when it is skipped (other cell
      line, missing or failing tables), else its pool size divided by its
      ratio. A missing ratio is a KeyError, a zero ratio a
      ZeroDivisionError. */
  function PoolCount(pool: DatasetPool, stratum: string, cellLine: string, ratios: map<string, real>): (r: Result<Option<real>>)
    ensures r.Err? <==> (CheckDataset(pool.name, cellLine).Err? ||
                         (CheckDataset(pool.name, cellLine) == Ok(true) && PepDfOf(pool, stratum).Some? &&
                          (pool.name !in ratios || ratios[pool.name] == 0.0)))
    ensures r.Ok? && r.value.Some? ==>
      (CheckDataset(pool.name, cellLine) == Ok(true) && PepDfOf(pool, stratum).Some? && pool.name in ratios &&
       ratios[pool.name] != 0.0 && r.value.value == |PepDfOf(pool, stratum).value| as real / ratios[pool.name])
  {
    match CheckDataset(pool.name, cellLine)
    case Err(e) => Err(e)
    case Ok(eligible) =>
      if !eligible then Ok(None)
      else
        match PepDfOf(pool, stratum)
        case None => Ok(None)
        case Some(rows) =>
          if pool.name !in ratios then Err(KeyError)
          else if ratios[pool.name] == 0.0 then Err(ZeroDivisionError)
          else Ok(Some(|rows| as real / ratios[pool.name]))
  }

  /** The running minimum over the remaining pools, starting from `acc`;
      a zero count never replaces it. */
  function MinCountFrom(pools: seq<DatasetPool>, stratum: string, cellLine: string, ratios: map<string, real>,
                        acc: real): Result<real>
    decreases |pools|
  {
    if pools == [] then Ok(acc)
    else
      match PoolCount(pools[0], stratum, cellLine, ratios)
      case Err(e) => Err(e)
      case Ok(c) =>
        MinCountFrom(pools[1..], stratum, cellLine, ratios,
                     if c.Some? && c.value != 0.0 && c.value < acc then c.value else acc)
  }

  /** `get_min_counts`: the minimum, or 0 when it never left the sentinel. */
  function MinCount(pools: seq<DatasetPool>, stratum: string, cellLine: string, ratios: map<string, real>): Result<real> {
    match MinCountFrom(pools, stratum, cellLine, ratios, Sentinel)
    case Err(e) => Err(e)
    case Ok(m) => Ok(if m == Sentinel then 0.0 else m)
  }

  /** The loop of `get_min_counts`. */
  method GetMinCounts(pools: seq<DatasetPool>, stratum: string, cellLine: string, ratios: map<string, real>)
    returns (r: Result<real>)
    ensures r == MinCount(pools, stratum, cellLine, ratios)
  {
    var m := Sentinel;
    var i := 0;
    while i < |pools|
      invariant 0 <= i <= |pools|
      invariant MinCountFrom(pools[i..], stratum, cellLine, ratios, m) == MinCountFrom(pools, stratum, cellLine, ratios, Sentinel)
    {
      assert pools[i..][0] == pools[i] && pools[i..][1..] == pools[i + 1..];
      var eligible := CheckDataset(pools[i].name, cellLine);
      if eligible.Err? {
        return Err(eligible.error);
      }
      if eligible.value {
        var rows := PepDfOf(pools[i], stratum);
        if rows.Some? {
          if pools[i].name !in ratios {
            return Err(KeyError);
          }
          var ratio := ratios[pools[i].name];
          if ratio == 0.0 {
            return Err(ZeroDivisionError);
          }
          var count := |rows.value| as real / ratio;
          if count != 0.0 && count < m {
            m := count;
          }
        }
      }
      i := i + 1;
    }
    assert pools[|pools|..] == [];
    r := Ok(if m == Sentinel then 0.0 else m);
  }

  /** The running minimum is at most its start and at most every non-zero
      count; an error arises exactly when some pool raises. */
  lemma {:induction false} MinCountFromBound(pools: seq<DatasetPool>, stratum: string, cellLine: string,
                                             ratios: map<string, real>, acc: real)
    ensures MinCountFrom(pools, stratum, cellLine, ratios, acc).Err? <==>
      exists k :: 0 <= k < |pools| && PoolCount(pools[k], stratum, cellLine, ratios).Err?
    ensures MinCountFrom(pools, stratum, cellLine, ratios, acc).Ok? ==>
      MinCountFrom(pools, stratum, cellLine, ratios, acc).value <= acc
    ensures MinCountFrom(pools, stratum, cellLine, ratios, acc).Ok? ==>
      forall k :: (0 <= k < |pools| && PoolCount(pools[k], stratum, cellLine, ratios).Ok? &&
                   PoolCount(pools[k], stratum, cellLine, ratios).value.Some? &&
                   PoolCount(pools[k], stratum, cellLine, ratios).value.value != 0.0) ==>
        MinCountFrom(pools, stratum, cellLine, ratios, acc).value <= PoolCount(pools[k], stratum, cellLine, ratios).value.value
    decreases |pools|
  {
    if pools != [] {
      var c := PoolCount(pools[0], stratum, cellLine, ratios);
      forall k | 1 <= k < |pools| ensures pools[k] == pools[1..][k - 1] { }
      if c.Ok? {
        var acc' := if c.value.Some? && c.value.value != 0.0 && c.value.value < acc then c.value.value else acc;
        MinCountFromBound(pools[1..], stratum, cellLine, ratios, acc');
      }
    }
  }

  /** The running minimum is its start or one pool's non-zero count below
      it: returns that pool's index, or -1 for the start. */
  lemma {:induction false} MinCountFromSource(pools: seq<DatasetPool>, stratum: string, cellLine: string,
                                              ratios: map<string, real>, acc: real) returns (k: int)
    requires MinCountFrom(pools, stratum, cellLine, ratios, acc).Ok?
    ensures -1 <= k < |pools|
    ensures k == -1 ==> MinCountFrom(pools, stratum, cellLine, ratios, acc).value == acc
    ensures k >= 0 ==> PoolCount(pools[k], stratum, cellLine, ratios) == Ok(Some(MinCountFrom(pools, stratum, cellLine, ratios, acc).value))
    ensures k >= 0 ==> MinCountFrom(pools, stratum, cellLine, ratios, acc).value != 0.0 &&
                       MinCountFrom(pools, stratum, cellLine, ratios, acc).value < acc
    decreases |pools|
  {
    if pools == [] {
      k := -1;
    } else {
      var c := PoolCount(pools[0], stratum, cellLine, ratios).value;
      var acc' := if c.Some? && c.value != 0.0 && c.value < acc then c.value else acc;
      var k' := MinCountFromSource(pools[1..], stratum, cellLine, ratios, acc');
      if k' >= 0 {
        k := k' + 1;
        assert pools[k] == pools[1..][k'];
      } else if acc' == acc {
        k := -1;
      } else {
        k := 0;
      }
    }
  }

  /** `get_min_counts` returns 0 exactly when no pool has a non-zero count
      below the sentinel; otherwise it returns the smallest non-zero count,
      attained by some pool. */
  lemma MinCountMeaning(pools: seq<DatasetPool>, stratum: string, cellLine: string, ratios: map<string, real>)
    returns (k: int)
    requires MinCount(pools, stratum, cellLine, ratios).Ok?
    ensures var m := MinCount(pools, stratum, cellLine, ratios).value;
      m == 0.0 ==> forall j :: (0 <= j < |pools| && PoolCount(pools[j], stratum, cellLine, ratios).Ok? &&
                                PoolCount(pools[j], stratum, cellLine, ratios).value.Some? &&
                                PoolCount(pools[j], stratum, cellLine, ratios).value.value != 0.0) ==>
        PoolCount(pools[j], stratum, cellLine, ratios).value.value >= Sentinel
    ensures var m := MinCount(pools, stratum, cellLine, ratios).value;
      m != 0.0 ==> 0 <= k < |pools| && PoolCount(pools[k], stratum, cellLine, ratios) == Ok(Some(m)) && m < Sentinel
    ensures var m := MinCount(pools, stratum, cellLine, ratios).value;
      m != 0.0 ==> forall j :: (0 <= j < |pools| && PoolCount(pools[j], stratum, cellLine, ratios).Ok? &&
                                PoolCount(pools[j], stratum, cellLine, ratios).value.Some? &&
                                PoolCount(pools[j], stratum, cellLine, ratios).value.value != 0.0) ==>
        m <= PoolCount(pools[j], stratum, cellLine, ratios).value.value
  {
    MinCountFromBound(pools, stratum, cellLine, ratios, Sentinel);
    k := MinCountFromSource(pools, stratum, cellLine, ratios, Sentinel);
  }

  // ---------------------------------------------------------------------
  // Sample goals and pool sizes (`get_sampled_negative_peps`)

  /** `ceil`. */
  function Ceil(x: real): (c: int)
    ensures x <= c as real < x + 1.0
  {
    -((-x).Floor)
  }

  /** The unrounded goal: the minimum count times the dataset's ratio,
      a hundredth of it for 'spliced'. */
  function SampleGoal(minCount: real, ratio: real, stratum: string): (g: real)
    ensures minCount >= 0.0 && ratio >= 0.0 ==> g >= 0.0
    ensures stratum == "spliced" ==> g * 100.0 == minCount * ratio
    ensures stratum != "spliced" ==> g == minCount * ratio
  {
    var g := minCount * ratio;
    if stratum == "spliced" then g / 100.0 else g
  }

  /** Random rounding of a goal with the draw `r`: up when `r` exceeds the
      fractional part, down otherwise. The result is the floor or the
      ceiling, and an integral goal is kept as it is. */
  function RoundGoal(goal: real, r: real): (n: int)
    ensures n == goal.Floor || n == Ceil(goal)
    ensures goal - 1.0 < n as real < goal + 1.0
    ensures goal.Floor as real == goal ==> n as real == goal
    ensures goal.Floor as real < goal ==> (n == Ceil(goal) <==> r > goal - goal.Floor as real)
  {
    var frac := goal - goal.Floor as real;
    IntegralCeil(goal);
    if r > frac then Ceil(goal) else goal.Floor
  }

  /** The ceiling of an integral value is the value itself. */
  lemma IntegralCeil(x: real)
    ensures x.Floor as real == x ==> Ceil(x) == x.Floor
  {
    if x.Floor as real == x {
      var c := Ceil(x);
      assert x.Floor as real <= c as real < x.Floor as real + 1.0;
      assert x.Floor <= c < x.Floor + 1;
    }
  }

  /** The pool size a dataset contributes to the negatives. */
  datatype SampledPool = SampledPool(name: string, size: nat)

  /** Ratios are fractions of the largest dataset, so never negative. */
  predicate NonNegativeRatios(ratios: map<string, real>) {
    forall d :: d in ratios ==> ratios[d] >= 0.0
  }

  /** One dataset's step of the sampling loop: skipped (`None`) for another
      cell line, failing tables or an empty result; otherwise the pool is
      cut down to the rounded goal when it is larger. */
  function SamplePool(pool: DatasetPool, stratum: string, cellLine: string, ratios: map<string, real>,
                      minCount: real, draw: real): (r: Result<Option<SampledPool>>)
    requires NonNegativeRatios(ratios) && minCount >= 0.0
    ensures r.Err? <==> (CheckDataset(pool.name, cellLine).Err? ||
                         (CheckDataset(pool.name, cellLine) == Ok(true) && PepDfOf(pool, stratum).Some? &&
                          pool.name !in ratios))
    ensures r.Ok? && r.value.Some? ==>
      (CheckDataset(pool.name, cellLine) == Ok(true) && PepDfOf(pool, stratum).Some? && pool.name in ratios &&
       r.value.value.name == pool.name && r.value.value.size > 0 &&
       r.value.value.size == Min(|PepDfOf(pool, stratum).value|,
                                 RoundGoal(SampleGoal(minCount, ratios[pool.name], stratum), draw)))
    ensures r.Ok? && r.value.None? && CheckDataset(pool.name, cellLine) == Ok(true) && PepDfOf(pool, stratum).Some? ==>
      (|PepDfOf(pool, stratum).value| == 0 || RoundGoal(SampleGoal(minCount, ratios[pool.name], stratum), draw) == 0)
  {
    match CheckDataset(pool.name, cellLine)
    case Err(e) => Err(e)
    case Ok(eligible) =>
      if !eligible then Ok(None)
      else
        match PepDfOf(pool, stratum)
        case None => Ok(None)
        case Some(rows) =>
          if pool.name !in ratios then Err(KeyError)
          else
            var goal := RoundGoal(SampleGoal(minCount, ratios[pool.name], stratum), draw);
            var size := if |rows| > 0 && |rows| > goal then goal else |rows|;
            if size > 0 then Ok(Some(SampledPool(pool.name, size))) else Ok(None)
  }

  /** The step of every dataset, each with its own draw. */
  function SampleSteps(pools: seq<DatasetPool>, draws: seq<real>, stratum: string, cellLine: string,
                       ratios: map<string, real>, minCount: real): (r: seq<Result<Option<SampledPool>>>)
    requires |draws| == |pools|
    requires NonNegativeRatios(ratios) && minCount >= 0.0
    ensures |r| == |pools|
    ensures forall i :: 0 <= i < |r| ==> r[i] == SamplePool(pools[i], stratum, cellLine, ratios, minCount, draws[i])
  {
    seq(|pools|, i requires 0 <= i < |pools| => SamplePool(pools[i], stratum, cellLine, ratios, minCount, draws[i]))
  }

  /** `get_sampled_negative_peps`, reduced to the size of every returned
      pool; `draws[i]` is the `np.random.random()` of dataset `i`. */
  method GetSampledNegativePools(pools: seq<DatasetPool>, draws: seq<real>, stratum: string, cellLine: string,
                                 ratios: map<string, real>, minCount: real)
    returns (r: Result<seq<SampledPool>>)
    requires |draws| == |pools|
    requires NonNegativeRatios(ratios) && minCount >= 0.0
    ensures r == Collect(SampleSteps(pools, draws, stratum, cellLine, ratios, minCount), [])
  {
    ghost var steps := SampleSteps(pools, draws, stratum, cellLine, ratios, minCount);
    var out: seq<SampledPool> := [];
    var i := 0;
    while i < |pools|
      invariant 0 <= i <= |pools|
      invariant Collect(steps[i..], out) == Collect(steps, [])
    {
      assert steps[i..][0] == SamplePool(pools[i], stratum, cellLine, ratios, minCount, draws[i]);
      assert steps[i..][1..] == steps[i + 1..];
      var eligible := CheckDataset(pools[i].name, cellLine);
      if eligible.Err? {
        return Err(eligible.error);
      }
      if eligible.value {
        var rows := PepDfOf(pools[i], stratum);
        if rows.Some? {
          if pools[i].name !in ratios {
            return Err(KeyError);
          }
          var goal := RoundGoal(SampleGoal(minCount, ratios[pools[i].name], stratum), draws[i]);
          var size := |rows.value|;
          if size > 0 && size > goal {
            size := goal;
          }
          if size > 0 {
            out := out + [SampledPool(pools[i].name, size)];
          }
        }
      }
      i := i + 1;
    }
    assert steps[|pools|..] == [];
    r := Ok(out);
  }

  /** Every returned pool is the step result of one dataset: returns that
      dataset's index. */
  lemma SampledPoolSource(pools: seq<DatasetPool>, draws: seq<real>, stratum: string, cellLine: string,
                          ratios: map<string, real>, minCount: real, k: nat) returns (i: nat)
    requires |draws| == |pools|
    requires NonNegativeRatios(ratios) && minCount >= 0.0
    requires Collect(SampleSteps(pools, draws, stratum, cellLine, ratios, minCount), []).Ok?
    requires k < |Collect(SampleSteps(pools, draws, stratum, cellLine, ratios, minCount), []).value|
    ensures i < |pools|
    ensures SamplePool(pools[i], stratum, cellLine, ratios, minCount, draws[i]) ==
      Ok(Some(Collect(SampleSteps(pools, draws, stratum, cellLine, ratios, minCount), []).value[k]))
  {
    i := CollectSource(SampleSteps(pools, draws, stratum, cellLine, ratios, minCount), [], k);
  }

  /** Every dataset whose step yields a pool has it in the result. */
  lemma SampledPoolComplete(pools: seq<DatasetPool>, draws: seq<real>, stratum: string, cellLine: string,
                            ratios: map<string, real>, minCount: real, i: nat)
    requires |draws| == |pools|
    requires NonNegativeRatios(ratios) && minCount >= 0.0
    requires Collect(SampleSteps(pools, draws, stratum, cellLine, ratios, minCount), []).Ok?
    requires i < |pools| && SamplePool(pools[i], stratum, cellLine, ratios, minCount, draws[i]).Ok?
    requires SamplePool(pools[i], stratum, cellLine, ratios, minCount, draws[i]).value.Some?
    ensures SamplePool(pools[i], stratum, cellLine, ratios, minCount, draws[i]).value.value in
      Collect(SampleSteps(pools, draws, stratum, cellLine, ratios, minCount), []).value
  {
    CollectComplete(SampleSteps(pools, draws, stratum, cellLine, ratios, minCount), [], i);
  }

  /** The sampling raises exactly when some dataset's step raises. */
  lemma SampledPoolErrors(pools: seq<DatasetPool>, draws: seq<real>, stratum: string, cellLine: string,
                          ratios: map<string, real>, minCount: real)
    requires |draws| == |pools|
    requires NonNegativeRatios(ratios) && minCount >= 0.0
    ensures Collect(SampleSteps(pools, draws, stratum, cellLine, ratios, minCount), []).Err? <==>
      exists i :: 0 <= i < |pools| && SamplePool(pools[i], stratum, cellLine, ratios, minCount, draws[i]).Err?
  {
    var steps := SampleSteps(pools, draws, stratum, cellLine, ratios, minCount);
    CollectErrors(steps, []);
    if Collect(steps, []).Err? {
      var i :| 0 <= i < |steps| && steps[i].Err?;
      assert SamplePool(pools[i], stratum, cellLine, ratios, minCount, draws[i]).Err?;
    }
  }

  // ---------------------------------------------------------------------
  // The reading-frame merge (`merge_orf_level_data`)

  /** A peptide and the reading frame it was assigned to. */
  datatype PeptideOrf = PeptideOrf(peptide: string, proteinId: string)

  /** A row of a stratum's reading-frame table; `transcript` holds the
      values of the table's transcript columns, in their order. */
  datatype OrfRow = OrfRow(proteinId: string, protSeq: string, transcript: seq<Option<real>>)

  /** A reading-frame table: the names of its transcript columns and its rows. */
  datatype OrfTable = OrfTable(transcriptColumns: seq<string>, rows: seq<OrfRow>)

  /** Every row has one value per transcript column. */
  predicate WellFormed(t: OrfTable) {
    forall j :: 0 <= j < |t.rows| ==> |t.rows[j].transcript| == |t.transcriptColumns|
  }

  /** A merged row. */
  datatype MergedRow = MergedRow(peptide: string, proteinId: string, protSeq: string, classLabel: int,
                                 transcript: seq<Option<real>>)

  /** The transcript values of a reading frame, one per feature of the cell
      line; 'intergenic' tables get a null column for every feature. */
  function TranscriptValues(t: OrfTable, row: OrfRow, features: seq<string>, intergenic: bool): (r: seq<Option<real>>)
    requires |row.transcript| == |t.transcriptColumns|
    requires !intergenic ==> forall f :: 0 <= f < |features| ==> features[f] in t.transcriptColumns
    ensures |r| == |features|
    ensures intergenic ==> forall f :: 0 <= f < |r| ==> r[f].None?
    ensures !intergenic ==> forall f :: 0 <= f < |r| ==>
      exists c :: 0 <= c < |t.transcriptColumns| && t.transcriptColumns[c] == features[f] && r[f] == row.transcript[c]
  {
    var r := seq(|features|, f requires 0 <= f < |features| =>
      if intergenic then None else row.transcript[IndexOf(t.transcriptColumns, features[f])]);
    assert !intergenic ==> forall f :: 0 <= f < |r| ==>
      exists c :: 0 <= c < |t.transcriptColumns| && t.transcriptColumns[c] == features[f] && r[f] == row.transcript[c] by {
      if !intergenic {
        forall f | 0 <= f < |r|
          ensures exists c :: 0 <= c < |t.transcriptColumns| && t.transcriptColumns[c] == features[f] && r[f] == row.transcript[c]
        {
          var c := IndexOf(t.transcriptColumns, features[f]);
          assert t.transcriptColumns[c] == features[f] && r[f] == row.transcript[c];
        }
      }
    }
    r
  }

  /** The rows of one peptide: one per reading-frame row with its protein. */
  function MergePeptide(p: PeptideOrf, t: OrfTable, rows: seq<OrfRow>, features: seq<string>, intergenic: bool,
                        classLabel: int): (r: seq<MergedRow>)
    requires forall j :: 0 <= j < |rows| ==> |rows[j].transcript| == |t.transcriptColumns|
    requires !intergenic ==> forall f :: 0 <= f < |features| ==> features[f] in t.transcriptColumns
    ensures forall k :: 0 <= k < |r| ==>
      (r[k].classLabel == classLabel && r[k].peptide == p.peptide &&
       r[k].proteinId == p.proteinId && |r[k].transcript| == |features|)
    ensures intergenic ==> forall k, f :: 0 <= k < |r| && 0 <= f < |r[k].transcript| ==> r[k].transcript[f].None?
    decreases |rows|
  {
    if rows == [] then []
    else
      var rest := MergePeptide(p, t, rows[1..], features, intergenic, classLabel);
      if rows[0].proteinId == p.proteinId then
        [MergedRow(p.peptide, p.proteinId, rows[0].protSeq, classLabel, TranscriptValues(t, rows[0], features, intergenic))] + rest
      else rest
  }

  /** The inner join on `proteinID`, in the order of the peptides. */
  function MergeRows(peps: seq<PeptideOrf>, t: OrfTable, features: seq<string>, intergenic: bool, classLabel: int): (r: seq<MergedRow>)
    requires WellFormed(t)
    requires !intergenic ==> forall f :: 0 <= f < |features| ==> features[f] in t.transcriptColumns
    ensures forall k :: 0 <= k < |r| ==> r[k].classLabel == classLabel && |r[k].transcript| == |features|
    ensures intergenic ==> forall k, f :: 0 <= k < |r| && 0 <= f < |r[k].transcript| ==> r[k].transcript[f].None?
    decreases |peps|
  {
    if peps == [] then []
    else MergePeptide(peps[0], t, t.rows, features, intergenic, classLabel) + MergeRows(peps[1..], t, features, intergenic, classLabel)
  }

  /** `merge_orf_level_data` reduced to its join, label and null rules: the
      cell line's transcript features and the stratum's own features are
      looked up (a KeyError for an unknown one), a non-intergenic table
      must carry every transcript feature (`select` raises polars'
      ColumnNotFoundError otherwise), every row gets `classLabel`, and
      for 'intergenic' every transcript feature is null. */
  function MergeOrfLevelData(peps: seq<PeptideOrf>, t: OrfTable, stratum: string, cellLine: string, classLabel: int)
    : (r: Result<seq<MergedRow>>)
    requires WellFormed(t)
    ensures r.Err? <==> (TranscriptFeatures(cellLine).Err? || StratumSpecificFeatures(stratum).Err? ||
                         (stratum != "intergenic" &&
                          exists f :: 0 <= f < |TranscriptFeatures(cellLine).value| &&
                            TranscriptFeatures(cellLine).value[f] !in t.transcriptColumns))
    ensures r.Err? ==> r.error == if TranscriptFeatures(cellLine).Err? || StratumSpecificFeatures(stratum).Err?
                                  then KeyError else ColumnNotFoundError
    ensures r.Ok? ==> forall k :: 0 <= k < |r.value| ==>
      (r.value[k].classLabel == classLabel && |r.value[k].transcript| == |TranscriptFeatures(cellLine).value|)
    ensures r.Ok? && stratum == "intergenic" ==>
      forall k, f :: 0 <= k < |r.value| && 0 <= f < |r.value[k].transcript| ==> r.value[k].transcript[f].None?
  {
    match TranscriptFeatures(cellLine)
    case Err(e) => Err(e)
    case Ok(features) =>
      if StratumSpecificFeatures(stratum).Err? then Err(KeyError)
      else if stratum != "intergenic" && exists f :: 0 <= f < |features| && features[f] !in t.transcriptColumns then
        Err(ColumnNotFoundError)
      else Ok(MergeRows(peps, t, features, stratum == "intergenic", classLabel))
  }

  /** Every pair of a peptide and a reading-frame row with its protein
      gives a merged row. */
  lemma {:induction false} MergeRowsComplete(peps: seq<PeptideOrf>, t: OrfTable, features: seq<string>, intergenic: bool,
                                             classLabel: int, i: nat, j: nat)
    requires WellFormed(t)
    requires !intergenic ==> forall f :: 0 <= f < |features| ==> features[f] in t.transcriptColumns
    requires i < |peps| && j < |t.rows| && peps[i].proteinId == t.rows[j].proteinId
    ensures MergedRow(peps[i].peptide, peps[i].proteinId, t.rows[j].protSeq, classLabel,
                      TranscriptValues(t, t.rows[j], features, intergenic)) in MergeRows(peps, t, features, intergenic, classLabel)
    decreases |peps|
  {
    if i == 0 {
      MergePeptideComplete(peps[0], t, t.rows, features, intergenic, classLabel, j);
    } else {
      assert peps[i] == peps[1..][i - 1];
      MergeRowsComplete(peps[1..], t, features, intergenic, classLabel, i - 1, j);
    }
  }

  lemma {:induction false} MergePeptideComplete(p: PeptideOrf, t: OrfTable, rows: seq<OrfRow>, features: seq<string>,
                                                intergenic: bool, classLabel: int, j: nat)
    requires forall j' :: 0 <= j' < |rows| ==> |rows[j'].transcript| == |t.transcriptColumns|
    requires !intergenic ==> forall f :: 0 <= f < |features| ==> features[f] in t.transcriptColumns
    requires j < |rows| && p.proteinId == rows[j].proteinId
    ensures MergedRow(p.peptide, p.proteinId, rows[j].protSeq, classLabel, TranscriptValues(t, rows[j], features, intergenic))
      in MergePeptide(p, t, rows, features, intergenic, classLabel)
    decreases |rows|
  {
    if j > 0 {
      assert rows[j] == rows[1..][j - 1];
      MergePeptideComplete(p, t, rows[1..], features, intergenic, classLabel, j - 1);
    }
  }

  /** Every merged row pairs a peptide with a reading-frame row of its
      protein: returns both indices. */
  lemma {:induction false} MergeRowsSource(peps: seq<PeptideOrf>, t: OrfTable, features: seq<string>, intergenic: bool,
                                           classLabel: int, k: nat) returns (i: nat, j: nat)
    requires WellFormed(t)
    requires !intergenic ==> forall f :: 0 <= f < |features| ==> features[f] in t.transcriptColumns
    requires k < |MergeRows(peps, t, features, intergenic, classLabel)|
    ensures i < |peps| && j < |t.rows| && peps[i].proteinId == t.rows[j].proteinId
    ensures MergeRows(peps, t, features, intergenic, classLabel)[k] ==
      MergedRow(peps[i].peptide, peps[i].proteinId, t.rows[j].protSeq, classLabel, TranscriptValues(t, t.rows[j], features, intergenic))
    decreases |peps|
  {
    var head := MergePeptide(peps[0], t, t.rows, features, intergenic, classLabel);
    var rest := MergeRows(peps[1..], t, features, intergenic, classLabel);
    assert MergeRows(peps, t, features, intergenic, classLabel) == head + rest;
    if k < |head| {
      i := 0;
      j := MergePeptideSource(peps[0], t, t.rows, features, intergenic, classLabel, k);
    } else {
      var i', j' := MergeRowsSource(peps[1..], t, features, intergenic, classLabel, k - |head|);
      i, j := i' + 1, j';
      assert peps[i] == peps[1..][i'];
    }
  }

  lemma {:induction false} MergePeptideSource(p: PeptideOrf, t: OrfTable, rows: seq<OrfRow>, features: seq<string>,
                                              intergenic: bool, classLabel: int, k: nat) returns (j: nat)
    requires forall j' :: 0 <= j' < |rows| ==> |rows[j'].transcript| == |t.transcriptColumns|
    requires !intergenic ==> forall f :: 0 <= f < |features| ==> features[f] in t.transcriptColumns
    requires k < |MergePeptide(p, t, rows, features, intergenic, classLabel)|
    ensures j < |rows| && p.proteinId == rows[j].proteinId
    ensures MergePeptide(p, t, rows, features, intergenic, classLabel)[k] ==
      MergedRow(p.peptide, p.proteinId, rows[j].protSeq, classLabel, TranscriptValues(t, rows[j], features, intergenic))
    decreases |rows|
  {
    var rest := MergePeptide(p, t, rows[1..], features, intergenic, classLabel);
    if rows[0].proteinId == p.proteinId && k == 0 {
      j := 0;
    } else {
      var k' := if rows[0].proteinId == p.proteinId then k - 1 else k;
      var j' := MergePeptideSource(p, t, rows[1..], features, intergenic, classLabel, k');
      j := j' + 1;
      assert rows[j] == rows[1..][j'];
    }
  }
}
