/** The constant tables the feature extraction and training depend on:
    residues and residue groups, start and stop codons, the ordered cryptic
    strata, the number of cross-validation groups and the feature lists. */
module Constants {
  import opened Common

  /** The 20 standard residues, in the order of the one-hot features. */
  const AminoAcids: string := "ACDEFGHIKLMNPQRSTVWY"

  /** Characters in strictly increasing order are pairwise distinct. */
  lemma {:induction false} IncreasingDistinct(s: string)
    requires forall i :: 0 <= i < |s| - 1 ==> s[i] < s[i + 1]
    ensures forall i, j :: 0 <= i < j < |s| ==> s[i] < s[j]
  {
    if |s| > 1 {
      var rest := s[1..];
      IncreasingDistinct(rest);
      forall i, j | 0 <= i < j < |s| ensures s[i] < s[j] {
        assert s[j] == rest[j - 1];
        if i > 0 {
          assert s[i] == rest[i - 1];
        } else if j > 1 {
          assert s[1] == rest[0];
        }
      }
    }
  }

  /** The residues are listed in alphabetical order, so none is listed
      twice. */
  lemma AminoAcidsDistinct()
    ensures Distinct(AminoAcids)
  {
    IncreasingDistinct(AminoAcids);
  }

  /** The five residue groups, in the order the group dictionary lists them. */
  datatype AaGroup = Basic | SpecialCase | Hydrophobic | Acidic | Polar

  const AaGroups: seq<AaGroup> := [Basic, SpecialCase, Hydrophobic, Acidic, Polar]

  function GroupName(g: AaGroup): string {
    match g
    case Basic => "basic"
    case SpecialCase => "special-case"
    case Hydrophobic => "hydrophobic"
    case Acidic => "acidic"
    case Polar => "polar"
  }

  function GroupMembers(g: AaGroup): string {
    match g
    case Basic => "KRH"
    case SpecialCase => "P"
    case Hydrophobic => "MAVILFYW"
    case Acidic => "DE"
    case Polar => "NQSTGC"
  }

  /** The one-hot vector `[int(c in members) for each group]`. */
  function GroupFlags(c: char): (r: seq<int>)
    ensures |r| == |AaGroups|
    ensures forall k :: 0 <= k < |r| ==> r[k] == (if c in GroupMembers(AaGroups[k]) then 1 else 0)
  {
    seq(|AaGroups|, k requires 0 <= k < |AaGroups| => if c in GroupMembers(AaGroups[k]) then 1 else 0)
  }

  function SumInts(s: seq<int>): int {
    if s == [] then 0 else s[0] + SumInts(s[1..])
  }

  lemma SumOfFive(f: seq<int>)
    requires |f| == 5
    ensures SumInts(f) == f[0] + f[1] + f[2] + f[3] + f[4]
  {
    assert SumInts(f[5..]) == 0;
    assert SumInts(f[4..]) == f[4] + SumInts(f[5..]) by { assert f[4..][1..] == f[5..]; }
    assert SumInts(f[3..]) == f[3] + SumInts(f[4..]) by { assert f[3..][1..] == f[4..]; }
    assert SumInts(f[2..]) == f[2] + SumInts(f[3..]) by { assert f[2..][1..] == f[3..]; }
    assert SumInts(f[1..]) == f[1] + SumInts(f[2..]) by { assert f[1..][1..] == f[2..]; }
  }

  /** Every standard residue lies in exactly one group, any other character
      in none. */
  lemma GroupsPartitionResidues(c: char)
    ensures (if c in "KRH" then 1 else 0) + (if c in "P" then 1 else 0) + (if c in "MAVILFYW" then 1 else 0) +
            (if c in "DE" then 1 else 0) + (if c in "NQSTGC" then 1 else 0) == if c in AminoAcids then 1 else 0
  {
  }

  /** The five groups partition the 20 standard residues and leave out every
      other character (in particular the sentinel `X`), so the group one-hot of
      a residue sums to 1 exactly for a standard residue and to 0 otherwise. */
  lemma GroupFlagsOneHot(c: char)
    ensures SumInts(GroupFlags(c)) == if c in AminoAcids then 1 else 0
  {
    var f := GroupFlags(c);
    SumOfFive(f);
    GroupsPartitionResidues(c);
    assert f[0] == (if c in "KRH" then 1 else 0);
    assert f[1] == (if c in "P" then 1 else 0);
    assert f[2] == (if c in "MAVILFYW" then 1 else 0);
    assert f[3] == (if c in "DE" then 1 else 0);
    assert f[4] == (if c in "NQSTGC" then 1 else 0);
  }

  lemma XInNoGroup()
    ensures forall g :: 'X' !in GroupMembers(g)
  {
    forall g ensures 'X' !in GroupMembers(g) {
      GroupFlagsOneHot('X');
    }
  }

  const StartCodons: seq<string> := ["AUG", "CUG", "GUG", "AUC", "ACG"]
  const StopCodons: seq<string> := ["UAA", "UAG", "UGA"]

  /** Start and stop codons are disjoint sets of three-letter RNA words. */
  lemma CodonTables()
    ensures forall i :: 0 <= i < |StartCodons| ==> |StartCodons[i]| == 3 && StartCodons[i] !in StopCodons
    ensures forall i :: 0 <= i < |StopCodons| ==> |StopCodons[i]| == 3
    ensures forall i, k :: 0 <= i < |StartCodons| && 0 <= k < 3 ==> StartCodons[i][k] in "ACGU"
    ensures forall i, k :: 0 <= i < |StopCodons| && 0 <= k < 3 ==> StopCodons[i][k] in "ACGU"
    ensures Distinct(StartCodons) && Distinct(StopCodons)
  {
  }

  const CrypticStrata: seq<string> :=
    ["fiveUTR", "threeUTR", "CDS_frameshift", "lncRNA", "intronic", "intergenic"]

  const NCvGroups: nat := 10

  /** `CRYPTIC_STRATA.index(stratum)`: the numeric encoding of a cryptic
      stratum; an unknown name raises ValueError. */
  function StratumCode(stratum: string): (r: Result<nat>)
    ensures r.Ok? <==> stratum in CrypticStrata
    ensures r.Ok? ==> r.value < |CrypticStrata| && CrypticStrata[r.value] == stratum
    ensures r.Ok? ==> forall k :: 0 <= k < r.value ==> CrypticStrata[k] != stratum
  {
    var i := IndexOf(CrypticStrata, stratum);
    if i < |CrypticStrata| then Ok(i) else Err(ValueError)
  }

  /** The six cryptic strata are distinct, so the encoding is a bijection
      between the names and 0..5. */
  lemma StratumCodeBijective()
    ensures |CrypticStrata| == 6 && Distinct(CrypticStrata)
    ensures forall k :: 0 <= k < |CrypticStrata| ==> StratumCode(CrypticStrata[k]) == Ok(k)
  {
    forall k | 0 <= k < |CrypticStrata| ensures StratumCode(CrypticStrata[k]) == Ok(k) {
      assert StratumCode(CrypticStrata[k]).Ok?;
    }
  }

  /** `[f'{prefix}{a}' for a in AMINO_ACIDS]`. */
  function PerResidue(prefix: string): (r: seq<string>)
    ensures |r| == |AminoAcids|
  {
    seq(|AminoAcids|, i requires 0 <= i < |AminoAcids| => prefix + [AminoAcids[i]])
  }

  function UpstreamFeatures(): (r: seq<string>)
    ensures |r| == |StartCodons|
  {
    seq(|StartCodons|, i requires 0 <= i < |StartCodons| => StartCodons[i] + "_upstream")
  }

  const CanonicalTrainFeatures: seq<string> := [
    "ubiCounts", "acetylCounts",
    "A_frac", "C_frac", "G_frac", "U_frac",
    "protLength", "relativePosition", "start_dist",
    "proteinHydrophobicity", "peptideHydrophobicity",
    "C_term_acidic", "C_term_basic", "C_term_hydrophobic", "C_term_polar", "C_term_special-case",
    "C_term_neg_1_acidic", "C_term_neg_1_basic", "C_term_neg_1_end",
    "C_term_neg_1_hydrophobic", "C_term_neg_1_polar", "C_term_neg_1_special-case"
  ]

  const CrypticTrainFeatures: seq<string> := [
    "stratum",
    "protLength", "relativePosition", "proteinHydrophobicity", "peptideHydrophobicity",
    "C_term_basic", "C_term_special-case", "C_term_hydrophobic", "C_term_acidic", "C_term_polar",
    "C_term_neg_1_basic", "C_term_neg_1_special-case", "C_term_neg_1_hydrophobic",
    "C_term_neg_1_acidic", "C_term_neg_1_polar", "C_term_neg_1_end",
    "A_frac", "C_frac", "G_frac", "U_frac",
    "codingStrand", "mismatches", "deNovoAssembly",
    "stopDistances", "start_dist", "kozakScore"
  ] + UpstreamFeatures()

  const SplicedTrainFeatures: seq<string> := [
    "ubiCounts", "acetylCounts",
    "nCanonicalPeptides", "sr2_can_dist", "sr1_can_dist",
    "interveningSeqLengths",
    "isForward",
    "protLength"
  ] + PerResidue("p1_") + PerResidue("p1_prime_")

  /** `TRAIN_FEATURES[model]`; an unknown model name is a KeyError. */
  function TrainFeatures(model: string): (r: Result<seq<string>>)
    ensures r.Ok? <==> model in ["canonical", "cryptic", "spliced"]
  {
    if model == "canonical" then Ok(CanonicalTrainFeatures)
    else if model == "cryptic" then Ok(CrypticTrainFeatures)
    else if model == "spliced" then Ok(SplicedTrainFeatures)
    else Err(KeyError)
  }

  /** The separately written `SPLICED_FEATURES` list. */
  const SplicedFeatures: seq<string> := [
    "ubiCounts", "acetylCounts",
    "nCanonicalPeptides", "sr2_can_dist", "sr1_can_dist",
    "interveningSeqLengths",
    "isForward",
    "protLength"
  ] + PerResidue("p1_") + PerResidue("p1_prime_")

  /** The spliced training features hold a `p1_a` and a `p1_prime_a` column
      for every standard residue, and the stand-alone spliced feature list is
      the same list element by element. */
  lemma SplicedFeatureLists()
    ensures TrainFeatures("spliced") == Ok(SplicedFeatures)
    ensures |SplicedFeatures| == 8 + 2 * |AminoAcids|
    ensures forall a :: a in AminoAcids ==> "p1_" + [a] in SplicedFeatures && "p1_prime_" + [a] in SplicedFeatures
  {
    forall a | a in AminoAcids
      ensures "p1_" + [a] in SplicedFeatures && "p1_prime_" + [a] in SplicedFeatures
    {
      var i :| 0 <= i < |AminoAcids| && AminoAcids[i] == a;
      assert SplicedFeatures[8 + i] == "p1_" + [a];
      assert SplicedFeatures[8 + |AminoAcids| + i] == "p1_prime_" + [a];
    }
  }

  /** `STRATUM_SPECIFIC_FEATURES[stratum]`; an unknown stratum is a KeyError. */
  function StratumSpecificFeatures(stratum: string): (r: Result<seq<string>>)
    ensures r.Ok? <==> stratum == "canonical" || stratum == "spliced" || stratum in CrypticStrata
  {
    match stratum
    case "canonical" => Ok(["geneID", "ubiCounts", "acetylCounts"])
    case "spliced" => Ok(["geneID", "nCanonicalPeptides", "canonicalPeptides", "ubiCounts", "acetylCounts",
                          "Cytoplasmic translation", "RNA processing", "Nucleic acid metabolic process"])
    case "fiveUTR" => Ok(["geneID"])
    case "threeUTR" => Ok(["geneID"])
    case "CDS_frameshift" => Ok(["geneID", "codingStrand", "mismatches"])
    case "lncRNA" => Ok([])
    case "intronic" => Ok(["geneID"])
    case "intergenic" => Ok(["deNovoAssembly"])
    case _ => Err(KeyError)
  }

  /** `TRANSCRIPT_FEATURES[cell_line]`: the transcript-abundance columns of a
      cell line; an unknown cell line is a KeyError. */
  function TranscriptFeatures(cellLine: string): (r: Result<seq<string>>)
    ensures r.Ok? <==> cellLine == "K562" || cellLine == "B721.221"
    ensures r.Ok? ==> |r.value| > 0 && Distinct(r.value)
  {
    match cellLine
    case "K562" => Ok(["tr_TPM_K562_bulk", "tr_TPM_K562_free", "tr_TPM_K562_S80", "tr_TPM_K562_poly"])
    case "B721.221" => Ok(["tr_TPM_721"])
    case _ => Err(KeyError)
  }
}
