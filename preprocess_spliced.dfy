/** Feature extraction around the junction of a spliced peptide: the peptide
    is the concatenation of two splice-reactants, SR1 (the prefix of length
    `|sr1|`, starting at `sr1Index` of the protein) and SR2 (the rest,
    starting at `sr2Index`). The features are the residues next to both
    cleavage sites, one-hot encoded or `X` past the protein, the distance of
    each reactant to the nearest canonical peptide, and the mean disorder
    over each reactant. Also the background-row bookkeeping: negatives that
    are positives are dropped, duplicates on the location key are dropped,
    and rows are split into batches of 1000. */
module PreprocessSpliced {
  import opened Common
  import opened Constants
  import opened Occurrences

  // ---------------------------------------------------------------------
  // One-hot residue flags

  /** `[int(c == a) for a in alphabet]`. */
  function Indicator(alphabet: string, c: char): (r: seq<int>)
    ensures |r| == |alphabet|
    ensures forall i :: 0 <= i < |r| ==> r[i] == if alphabet[i] == c then 1 else 0
  {
    if alphabet == [] then [] else [if alphabet[0] == c then 1 else 0] + Indicator(alphabet[1..], c)
  }

  /** Over an alphabet without repeats the flags sum to 1 for a letter of the
      alphabet and to 0 for any other character. */
  lemma {:induction false} IndicatorSum(alphabet: string, c: char)
    requires Distinct(alphabet)
    ensures SumInts(Indicator(alphabet, c)) == if c in alphabet then 1 else 0
  {
    if alphabet != [] {
      var rest := alphabet[1..];
      assert Distinct(rest) by {
        forall i, j | 0 <= i < j < |rest| ensures rest[i] != rest[j] {
          assert rest[i] == alphabet[i + 1] && rest[j] == alphabet[j + 1];
        }
      }
      IndicatorSum(rest, c);
      assert Indicator(alphabet, c)[1..] == Indicator(rest, c);
      if alphabet[0] == c {
        assert c !in rest by {
          forall j | 0 <= j < |rest| ensures rest[j] != c {
            assert rest[j] == alphabet[j + 1];
          }
        }
      } else {
        assert c in alphabet <==> c in rest;
      }
    }
  }

  /** The 20 flags `int(c == a)` of a residue, in `AminoAcids` order. */
  function OneHot(c: char): seq<int>
  {
    seq(|AminoAcids|, i requires 0 <= i < |AminoAcids| => if AminoAcids[i] == c then 1 else 0)
  }

  /** Flag `i` is set exactly when the residue is `AminoAcids[i]`; every
      other flag is 0. */
  lemma OneHotMeaning(c: char)
    ensures |OneHot(c)| == |AminoAcids|
    ensures forall i :: 0 <= i < |AminoAcids| ==>
      (OneHot(c)[i] == 1 <==> AminoAcids[i] == c) && (OneHot(c)[i] == 0 <==> AminoAcids[i] != c)
  {
  }

  /** A standard residue sets exactly one flag, `X` (or any other character)
      none. */
  lemma OneHotSum(c: char)
    ensures SumInts(OneHot(c)) == if c in AminoAcids then 1 else 0
  {
    var alphabet := AminoAcids;
    AminoAcidsDistinct();
    IndicatorSum(alphabet, c);
    assert OneHot(c) == Indicator(alphabet, c);
  }

  /** The loop over `AMINO_ACIDS` that sets the flags of several residues at
      once, one flag of each per iteration. */
  method OneHotColumns(cs: seq<char>) returns (cols: seq<seq<int>>)
    ensures |cols| == |cs|
    ensures forall j :: 0 <= j < |cs| ==> cols[j] == OneHot(cs[j])
  {
    cols := seq(|cs|, j => []);
    for i := 0 to |AminoAcids|
      invariant |cols| == |cs|
      invariant forall j :: 0 <= j < |cs| ==> cols[j] == OneHot(cs[j])[..i]
    {
      cols := seq(|cs|, j requires 0 <= j < |cs| => cols[j] + [if cs[j] == AminoAcids[i] then 1 else 0]);
      assert forall j :: 0 <= j < |cs| ==> OneHot(cs[j])[..i + 1] == OneHot(cs[j])[..i] + [OneHot(cs[j])[i]];
    }
    assert forall j :: 0 <= j < |cs| ==> OneHot(cs[j])[..|AminoAcids|] == OneHot(cs[j]);
  }

  // ---------------------------------------------------------------------
  // Distance to the canonical peptides

  /** `start_of_peps`: the match starts of every canonical peptide in the
      folded protein, peptide by peptide. */
  function AllStarts(canonical: seq<string>, il: string): seq<nat>
  {
    if canonical == [] then [] else FindAll(canonical[0], il) + AllStarts(canonical[1..], il)
  }

  /** `s` is where a canonical peptide starts in the folded protein. */
  predicate CanonicalStart(canonical: seq<string>, il: string, s: nat) {
    exists k :: 0 <= k < |canonical| && s in FindAll(canonical[k], il)
  }

  /** A start is listed exactly when it is a match start of one of the
      canonical peptides. */
  lemma {:induction false} AllStartsMeaning(canonical: seq<string>, il: string, s: nat)
    ensures s in AllStarts(canonical, il) <==> CanonicalStart(canonical, il, s)
  {
    if canonical != [] {
      AllStartsMeaning(canonical[1..], il, s);
      if s in AllStarts(canonical[1..], il) {
        var k :| 0 <= k < |canonical[1..]| && s in FindAll(canonical[1..][k], il);
        assert s in FindAll(canonical[k + 1], il);
      }
      if CanonicalStart(canonical, il, s) {
        var k :| 0 <= k < |canonical| && s in FindAll(canonical[k], il);
        if k > 0 {
          assert canonical[1..][k - 1] == canonical[k];
        }
      }
    }
  }

  /** The loop that extends `start_of_peps` with the matches of each
      canonical peptide. */
  method CanonicalStarts(canonical: seq<string>, il: string) returns (starts: seq<nat>)
    ensures starts == AllStarts(canonical, il)
  {
    starts := [];
    for k := 0 to |canonical|
      invariant starts + AllStarts(canonical[k..], il) == AllStarts(canonical, il)
    {
      var rest := canonical[k..];
      assert rest[0] == canonical[k] && rest[1..] == canonical[k + 1..];
      assert AllStarts(rest, il) == FindAll(canonical[k], il) + AllStarts(canonical[k + 1..], il);
      assert starts + AllStarts(rest, il) == (starts + FindAll(canonical[k], il)) + AllStarts(canonical[k + 1..], il);
      starts := starts + FindAll(canonical[k], il);
    }
    assert canonical[|canonical|..] == [];
  }

  function Abs(x: int): nat {
    if x < 0 then -x else x
  }

  /** `min([abs(index - s) for s in starts])` over a non-empty list. */
  function MinDistance(index: int, starts: seq<nat>): (d: nat)
    requires starts != []
    ensures forall k :: 0 <= k < |starts| ==> d <= Abs(index - starts[k])
    ensures exists k :: 0 <= k < |starts| && d == Abs(index - starts[k])
  {
    if |starts| == 1 then Abs(index - starts[0])
    else
      var rest := MinDistance(index, starts[1..]);
      assert forall k :: 1 <= k < |starts| ==> starts[k] == starts[1..][k - 1];
      Min(Abs(index - starts[0]), rest)
  }

  /** `sr1_can_dist` and `sr2_can_dist`: both None without canonical
      peptides; `min` of an empty list (no canonical peptide occurs) raises
      ValueError. */
  function CanDists(canonical: seq<string>, il: string, sr1Index: nat, sr2Index: nat): Result<(Option<nat>, Option<nat>)>
  {
    if canonical == [] then Ok((None, None))
    else
      var starts := AllStarts(canonical, il);
      if starts == [] then Err(ValueError)
      else Ok((Some(MinDistance(sr1Index, starts)), Some(MinDistance(sr2Index, starts))))
  }

  /** The distances fail exactly when canonical peptides are given and none
      of them occurs, and then with ValueError. */
  lemma CanDistsErrors(canonical: seq<string>, il: string, sr1Index: nat, sr2Index: nat)
    ensures CanDists(canonical, il, sr1Index, sr2Index).Err? <==>
      canonical != [] && forall k :: 0 <= k < |canonical| ==> FindAll(canonical[k], il) == []
    ensures CanDists(canonical, il, sr1Index, sr2Index).Err? ==>
      CanDists(canonical, il, sr1Index, sr2Index).error == ValueError
  {
    var starts := AllStarts(canonical, il);
    if starts != [] {
      AllStartsMeaning(canonical, il, starts[0]);
    } else {
      forall k | 0 <= k < |canonical| ensures FindAll(canonical[k], il) == [] {
        if FindAll(canonical[k], il) != [] {
          AllStartsMeaning(canonical, il, FindAll(canonical[k], il)[0]);
        }
      }
    }
  }

  /** The smallest distance to a listed start is at most the distance to any
      of them and is the distance to one of them. */
  lemma MinDistanceMeaning(index: int, starts: seq<nat>)
    requires starts != []
    ensures forall s :: s in starts ==> MinDistance(index, starts) <= Abs(index - s)
    ensures exists s :: s in starts && MinDistance(index, starts) == Abs(index - s)
  {
    var k :| 0 <= k < |starts| && MinDistance(index, starts) == Abs(index - starts[k]);
    assert starts[k] in starts;
  }

  /** Without canonical peptides both distances are missing; otherwise each
      is the smallest distance from the reactant's start to a match start of
      a canonical peptide, and it is attained. */
  lemma CanDistsMeaning(canonical: seq<string>, il: string, sr1Index: nat, sr2Index: nat)
    requires CanDists(canonical, il, sr1Index, sr2Index).Ok?
    ensures var (d1, d2) := CanDists(canonical, il, sr1Index, sr2Index).value;
      (d1.None? <==> canonical == []) && (d2.None? <==> canonical == []) &&
      (canonical != [] ==>
        (forall s :: CanonicalStart(canonical, il, s) ==> d1.value <= Abs(sr1Index - s) && d2.value <= Abs(sr2Index - s)) &&
        (exists s :: CanonicalStart(canonical, il, s) && d1.value == Abs(sr1Index - s)) &&
        (exists s :: CanonicalStart(canonical, il, s) && d2.value == Abs(sr2Index - s)))
  {
    if canonical != [] {
      var starts := AllStarts(canonical, il);
      MinDistanceMeaning(sr1Index, starts);
      MinDistanceMeaning(sr2Index, starts);
      forall s | CanonicalStart(canonical, il, s) ensures s in starts {
        AllStartsMeaning(canonical, il, s);
      }
      var s1 :| s1 in starts && MinDistance(sr1Index, starts) == Abs(sr1Index - s1);
      AllStartsMeaning(canonical, il, s1);
      var s2 :| s2 in starts && MinDistance(sr2Index, starts) == Abs(sr2Index - s2);
      AllStartsMeaning(canonical, il, s2);
    }
  }

  /** Lines computing `sr1_can_dist` and `sr2_can_dist`. */
  method CanonicalDistances(canonical: seq<string>, il: string, sr1Index: nat, sr2Index: nat)
    returns (r: Result<(Option<nat>, Option<nat>)>)
    ensures r == CanDists(canonical, il, sr1Index, sr2Index)
  {
    if canonical == [] {
      return Ok((None, None));
    }
    var starts := CanonicalStarts(canonical, il);
    if starts == [] {
      return Err(ValueError);
    }
    r := Ok((Some(MinDistance(sr1Index, starts)), Some(MinDistance(sr2Index, starts))));
  }

  // ---------------------------------------------------------------------
  // The feature dictionary

  datatype SplicedFeatures = SplicedFeatures(
    protLength: nat,
    p1: seq<int>,            // p1_{a}: the last residue of SR1
    pNeg1: seq<int>,         // p_neg_1_{a}: the residue after SR1
    p1Prime: seq<int>,       // p1_prime_{a}: the first residue of SR2
    pNeg1Prime: seq<int>,    // p_neg_1_prime_{a}: the residue before SR2
    p2: char,
    pMinus1: char,
    pMinus2: char,
    p2Prime: char,
    pMinus1Prime: char,
    pMinus2Prime: char,
    sr1CanDist: Option<nat>,
    sr2CanDist: Option<nat>,
    aaP1: seq<int>,          // {a}_p1, from the re-read SR1
    aaP1Prime: seq<int>,     // {a}_p1_prime, from the re-read SR2
    sr1LocalDisorder: Option<real>,
    sr2LocalDisorder: Option<real>)

  /** `prot_seq[i]` when `present` holds, the sentinel `X` otherwise. */
  function ResidueOrX(protSeq: string, i: int, present: bool): char
    requires present ==> 0 <= i < |protSeq|
  {
    if present then protSeq[i] else 'X'
  }

  /** The length of `peptide[len(sr1):]`. */
  function Sr2Length(peptide: string, sr1: string): nat {
    if |sr1| <= |peptide| then |peptide| - |sr1| else 0
  }

  /** The dictionary of a call that raises nothing, from the re-read
      reactants `r1` (starting at `sr1Index`) and `r2` (starting at
      `sr2Index`), the residue `p1Aa` read at `p1_index` and the canonical
      distances. */
  function SplicedColumns(protSeq: string, preds: seq<real>, sr1Index: nat, sr2Index: nat,
                          r1: string, r2: string, p1Aa: char, dists: (Option<nat>, Option<nat>)): SplicedFeatures
    requires 0 < |r1| && sr1Index + |r1| <= |protSeq| && 0 < |r2| && sr2Index < |protSeq|
  {
    var n := |protSeq|;
    var after1 := sr1Index + |r1|;
    SplicedFeatures(
      n,
      OneHot(p1Aa),
      OneHot(ResidueOrX(protSeq, after1, after1 < n)),
      OneHot(protSeq[sr2Index]),
      OneHot(ResidueOrX(protSeq, sr2Index - 1, sr2Index - 1 > 0)),
      ResidueOrX(protSeq, after1 - 2, after1 - 2 > 0),
      ResidueOrX(protSeq, after1, after1 < n),
      ResidueOrX(protSeq, after1 + 1, after1 + 1 < n),
      ResidueOrX(protSeq, sr2Index + 1, sr2Index + 1 < n),
      ResidueOrX(protSeq, sr2Index - 1, sr2Index - 1 >= 0),
      ResidueOrX(protSeq, sr2Index - 2, sr2Index - 2 >= 0),
      dists.0,
      dists.1,
      OneHot(r1[|r1| - 1]),
      OneHot(r2[0]),
      Mean(Slice(preds, sr1Index, sr1Index + |r1|)),
      Mean(Slice(preds, sr2Index, sr2Index + |r1|)))
  }

  /** What `create_spliced_features` raises, given the reactants `r1` and
      `r2` as re-read from the protein: in the order of the code,
      `prot_seq[p1_index]` (a negative index counts from the end),
      `prot_seq[sr2_index]`, the canonical distances, `sr1[-1]` and `sr2[0]`
      can raise. */
  function SplicedFrom(protSeq: string, preds: seq<real>, sr1Index: nat, sr2Index: nat,
                       canonical: seq<string>, r1: string, r2: string): Result<SplicedFeatures>
    requires 0 < |r1| ==> sr1Index + |r1| <= |protSeq|
  {
    var p1 := PyIndex(protSeq, sr1Index + |r1| - 1);
    if p1.None? || sr2Index >= |protSeq| then Err(IndexError)
    else
      var dists := CanDists(canonical, FoldIL(protSeq), sr1Index, sr2Index);
      if dists.Err? then Err(dists.error)
      else if |r1| == 0 || |r2| == 0 then Err(IndexError)
      else Ok(SplicedColumns(protSeq, preds, sr1Index, sr2Index, r1, r2, p1.value, dists.value))
  }

  /** What `create_spliced_features` returns or raises: both reactants are
      re-read from the protein first, clipped at its end. */
  function SplicedFeaturesOf(peptide: string, sr1: string, protSeq: string, preds: seq<real>,
                             sr1Index: nat, sr2Index: nat, canonical: seq<string>): Result<SplicedFeatures>
  {
    SplicedFrom(protSeq, preds, sr1Index, sr2Index, canonical,
                Slice(protSeq, sr1Index, sr1Index + |sr1|),
                Slice(protSeq, sr2Index, sr2Index + Sr2Length(peptide, sr1)))
  }

  /** The reactants as re-read from the protein: non-empty, SR1 inside the
      protein and ending with the residue at `p1_index`, SR2 starting with
      the residue at `sr2_index`. */
  predicate ReadBack(protSeq: string, sr1Index: nat, sr2Index: nat, r1: string, r2: string) {
    0 < |r1| && sr1Index + |r1| <= |protSeq| && 0 < |r2| && sr2Index < |protSeq| &&
    r1[|r1| - 1] == protSeq[sr1Index + |r1| - 1] && r2[0] == protSeq[sr2Index]
  }

  /** Given the re-read reactants, a call that raises nothing has non-empty
      reactants inside the protein, canonical distances that did not fail,
      and returns their columns with `p1_index` read directly. */
  lemma SplicedFromOk(protSeq: string, preds: seq<real>, sr1Index: nat, sr2Index: nat,
                      canonical: seq<string>, r1: string, r2: string)
    requires 0 < |r1| ==> sr1Index + |r1| <= |protSeq|
    requires SplicedFrom(protSeq, preds, sr1Index, sr2Index, canonical, r1, r2).Ok?
    ensures 0 < |r1| && 0 < |r2| && sr2Index < |protSeq|
    ensures CanDists(canonical, FoldIL(protSeq), sr1Index, sr2Index).Ok?
    ensures SplicedFrom(protSeq, preds, sr1Index, sr2Index, canonical, r1, r2).value ==
      SplicedColumns(protSeq, preds, sr1Index, sr2Index, r1, r2, protSeq[sr1Index + |r1| - 1],
                     CanDists(canonical, FoldIL(protSeq), sr1Index, sr2Index).value)
  {
  }

  /** A call that raises nothing returns the columns of the reactants re-read
      from the protein, SR1 running from `sr1Index` for `len(sr1)` residues
      or up to the protein's end. */
  lemma SplicedOk(peptide: string, sr1: string, protSeq: string, preds: seq<real>,
                  sr1Index: nat, sr2Index: nat, canonical: seq<string>)
    requires SplicedFeaturesOf(peptide, sr1, protSeq, preds, sr1Index, sr2Index, canonical).Ok?
    ensures var r1 := Slice(protSeq, sr1Index, sr1Index + |sr1|);
      var r2 := Slice(protSeq, sr2Index, sr2Index + Sr2Length(peptide, sr1));
      ReadBack(protSeq, sr1Index, sr2Index, r1, r2) && sr1Index + |r1| == Min(sr1Index + |sr1|, |protSeq|) &&
      CanDists(canonical, FoldIL(protSeq), sr1Index, sr2Index).Ok? &&
      SplicedFeaturesOf(peptide, sr1, protSeq, preds, sr1Index, sr2Index, canonical).value ==
        SplicedColumns(protSeq, preds, sr1Index, sr2Index, r1, r2, protSeq[sr1Index + |r1| - 1],
                       CanDists(canonical, FoldIL(protSeq), sr1Index, sr2Index).value)
  {
    var r1 := Slice(protSeq, sr1Index, sr1Index + |sr1|);
    var r2 := Slice(protSeq, sr2Index, sr2Index + Sr2Length(peptide, sr1));
    SplicedFromOk(protSeq, preds, sr1Index, sr2Index, canonical, r1, r2);
    assert r1[|r1| - 1] == protSeq[sr1Index + |r1| - 1];
    assert r2[0] == protSeq[sr2Index];
  }

  /** Around SR1, which ends just before `after1`: `p1` flags its last
      residue and agrees with `{a}_p1`; the residue after it and the one
      after that are `X` past the protein's end; `p2`, the residue before the
      last, is `X` unless its index is positive. Around SR2: `p1_prime` flags
      its first residue and agrees with `{a}_p1_prime`; the residue after
      that is `X` past the end; the residues before it are `X` below index 0,
      except in `p_neg_1_prime`, which is `X` unless the index is positive. */
  lemma ColumnsJunction(protSeq: string, preds: seq<real>, sr1Index: nat, sr2Index: nat,
                        r1: string, r2: string, dists: (Option<nat>, Option<nat>))
    requires ReadBack(protSeq, sr1Index, sr2Index, r1, r2)
    ensures var n := |protSeq|;
      var after1 := sr1Index + |r1|;
      var f := SplicedColumns(protSeq, preds, sr1Index, sr2Index, r1, r2, protSeq[after1 - 1], dists);
      f.p1 == OneHot(protSeq[after1 - 1]) && f.aaP1 == f.p1 &&
      f.pNeg1 == OneHot(f.pMinus1) &&
      f.pMinus1 == (if after1 < n then protSeq[after1] else 'X') &&
      f.pMinus2 == (if after1 + 1 < n then protSeq[after1 + 1] else 'X') &&
      f.p2 == (if after1 > 2 then protSeq[after1 - 2] else 'X') &&
      f.p1Prime == OneHot(protSeq[sr2Index]) && f.aaP1Prime == f.p1Prime &&
      f.p2Prime == (if sr2Index + 1 < n then protSeq[sr2Index + 1] else 'X') &&
      f.pMinus1Prime == (if sr2Index >= 1 then protSeq[sr2Index - 1] else 'X') &&
      f.pMinus2Prime == (if sr2Index >= 2 then protSeq[sr2Index - 2] else 'X') &&
      f.pNeg1Prime == OneHot(if sr2Index >= 2 then protSeq[sr2Index - 1] else 'X')
  {
  }

  /** The two residues next to SR2's start disagree at `sr2_index == 1`:
      `p_minus_1_prime` reads the protein's first residue while the one-hot
      `p_neg_1_prime` treats the same position as missing. Likewise `p2` is
      `X` when SR1 ends at index 1, although the protein has a residue at
      index 0. */
  lemma ColumnsLowerFlankAsymmetry(protSeq: string, preds: seq<real>, sr1Index: nat, sr2Index: nat,
                                   r1: string, r2: string, dists: (Option<nat>, Option<nat>))
    requires ReadBack(protSeq, sr1Index, sr2Index, r1, r2)
    ensures var f := SplicedColumns(protSeq, preds, sr1Index, sr2Index, r1, r2, protSeq[sr1Index + |r1| - 1], dists);
      (sr2Index == 1 ==> f.pMinus1Prime == protSeq[0] && SumInts(f.pNeg1Prime) == 0) &&
      (sr1Index + |r1| == 2 ==> f.p2 == 'X')
  {
    OneHotSum('X');
  }

  /** Each flag vector is the one-hot of a residue: exactly one flag for a
      standard residue, none for `X`. */
  lemma ColumnsFlagsOneHot(protSeq: string, preds: seq<real>, sr1Index: nat, sr2Index: nat,
                           r1: string, r2: string, dists: (Option<nat>, Option<nat>))
    requires ReadBack(protSeq, sr1Index, sr2Index, r1, r2)
    ensures var p1Aa := protSeq[sr1Index + |r1| - 1];
      var f := SplicedColumns(protSeq, preds, sr1Index, sr2Index, r1, r2, p1Aa, dists);
      SumInts(f.p1) == (if p1Aa in AminoAcids then 1 else 0) &&
      SumInts(f.pNeg1) == (if f.pMinus1 in AminoAcids then 1 else 0) &&
      SumInts(f.p1Prime) == (if protSeq[sr2Index] in AminoAcids then 1 else 0) &&
      (f.pMinus1 == 'X' ==> SumInts(f.pNeg1) == 0)
  {
    var f := SplicedColumns(protSeq, preds, sr1Index, sr2Index, r1, r2, protSeq[sr1Index + |r1| - 1], dists);
    OneHotSum(protSeq[sr1Index + |r1| - 1]);
    OneHotSum(f.pMinus1);
    OneHotSum(protSeq[sr2Index]);
  }

  /** The disorder of SR1 averages the predictions over SR1; the disorder of
      SR2 averages the same number of predictions, `len(sr1)` of them,
      starting at SR2. Each is missing exactly when the predictions end
      before the reactant starts. */
  lemma ColumnsDisorder(protSeq: string, preds: seq<real>, sr1Index: nat, sr2Index: nat,
                        r1: string, r2: string, dists: (Option<nat>, Option<nat>))
    requires ReadBack(protSeq, sr1Index, sr2Index, r1, r2)
    ensures var f := SplicedColumns(protSeq, preds, sr1Index, sr2Index, r1, r2, protSeq[sr1Index + |r1| - 1], dists);
      (f.sr1LocalDisorder.Some? <==> sr1Index < |preds|) &&
      (f.sr2LocalDisorder.Some? <==> sr2Index < |preds|) &&
      f.sr1LocalDisorder == Mean(Slice(preds, sr1Index, sr1Index + |r1|)) &&
      f.sr2LocalDisorder == Mean(Slice(preds, sr2Index, sr2Index + |r1|))
  {
  }

  /** The assignments of `create_spliced_features` once no read can fail:
      the flank residues, the two loops over `AMINO_ACIDS` and the disorder
      means. */
  method FillSplicedColumns(protSeq: string, preds: seq<real>, sr1Index: nat, sr2Index: nat,
                            sr1': string, sr2': string, p1Aa: char, dists: (Option<nat>, Option<nat>))
    returns (f: SplicedFeatures)
    requires 0 < |sr1'| && sr1Index + |sr1'| <= |protSeq| && 0 < |sr2'| && sr2Index < |protSeq|
    ensures f == SplicedColumns(protSeq, preds, sr1Index, sr2Index, sr1', sr2', p1Aa, dists)
  {
    var protLength := |protSeq|;
    var p2Index: int := sr1Index + |sr1'| - 2;
    var pMinus1Index := sr1Index + |sr1'|;
    var pMinus2Index := pMinus1Index + 1;
    var pPrime2Index := sr2Index + 1;
    var pPrimeMinus1Index: int := sr2Index - 1;
    var pPrimeMinus2Index: int := pPrimeMinus1Index - 1;

    var pNeg1Aa := ResidueOrX(protSeq, pMinus1Index, pMinus1Index < protLength);
    var p1PrimeAa := protSeq[sr2Index];
    var pNeg1PrimeAa := ResidueOrX(protSeq, pPrimeMinus1Index, pPrimeMinus1Index > 0);
    var flags := OneHotColumns([p1Aa, pNeg1Aa, p1PrimeAa, pNeg1PrimeAa]);
    assert flags[0] == OneHot(p1Aa) && flags[1] == OneHot(pNeg1Aa);
    assert flags[2] == OneHot(p1PrimeAa) && flags[3] == OneHot(pNeg1PrimeAa);

    var p2 := ResidueOrX(protSeq, p2Index, p2Index > 0);
    var pMinus1 := ResidueOrX(protSeq, pMinus1Index, pMinus1Index < protLength);
    var pMinus2 := ResidueOrX(protSeq, pMinus2Index, pMinus2Index < protLength);
    var p2Prime := ResidueOrX(protSeq, pPrime2Index, pPrime2Index < protLength);
    var pMinus1Prime := ResidueOrX(protSeq, pPrimeMinus1Index, pPrimeMinus1Index >= 0);
    var pMinus2Prime := ResidueOrX(protSeq, pPrimeMinus2Index, pPrimeMinus2Index >= 0);

    var aaFlags := OneHotColumns([sr1'[|sr1'| - 1], sr2'[0]]);
    assert aaFlags[0] == OneHot(sr1'[|sr1'| - 1]) && aaFlags[1] == OneHot(sr2'[0]);

    var sr1Disorder := Mean(Slice(preds, sr1Index, sr1Index + |sr1'|));
    var sr2Disorder := Mean(Slice(preds, sr2Index, sr2Index + |sr1'|));
    f := SplicedFeatures(protLength, flags[0], flags[1], flags[2], flags[3],
                         p2, pMinus1, pMinus2, p2Prime, pMinus1Prime, pMinus2Prime,
                         dists.0, dists.1, aaFlags[0], aaFlags[1], sr1Disorder, sr2Disorder);
  }

  /** `create_spliced_features`. */
  method CreateSplicedFeatures(peptide: string, sr1: string, protSeq: string, preds: seq<real>,
                               sr1Index: nat, sr2Index: nat, canonical: seq<string>)
    returns (r: Result<SplicedFeatures>)
    ensures r == SplicedFeaturesOf(peptide, sr1, protSeq, preds, sr1Index, sr2Index, canonical)
  {
    var sr2Len := Sr2Length(peptide, sr1);
    var sr1' := Slice(protSeq, sr1Index, sr1Index + |sr1|);
    var sr2' := Slice(protSeq, sr2Index, sr2Index + sr2Len);
    var ilProtSeq := FoldIL(protSeq);
    assert SplicedFeaturesOf(peptide, sr1, protSeq, preds, sr1Index, sr2Index, canonical) ==
      SplicedFrom(protSeq, preds, sr1Index, sr2Index, canonical, sr1', sr2');

    var p1Index: int := sr1Index + |sr1'| - 1;
    var p1Aa := PyIndex(protSeq, p1Index);
    if p1Aa.None? || sr2Index >= |protSeq| {
      return Err(IndexError);
    }
    var dists := CanonicalDistances(canonical, ilProtSeq, sr1Index, sr2Index);
    if dists.Err? {
      return Err(dists.error);
    }
    if |sr1'| == 0 || |sr2'| == 0 {
      return Err(IndexError);
    }
    var f := FillSplicedColumns(protSeq, preds, sr1Index, sr2Index, sr1', sr2', p1Aa.value, dists.value);
    r := Ok(f);
  }

  /** Given the re-read reactants, the call succeeds exactly when no read
      fails and the canonical distances do not; a ValueError can only come
      from the distances. */
  lemma SplicedFromErrors(protSeq: string, preds: seq<real>, sr1Index: nat, sr2Index: nat,
                          canonical: seq<string>, r1: string, r2: string)
    requires 0 < |r1| ==> sr1Index + |r1| <= |protSeq|
    ensures SplicedFrom(protSeq, preds, sr1Index, sr2Index, canonical, r1, r2).Ok? <==>
      -|protSeq| <= sr1Index + |r1| - 1 && sr2Index < |protSeq| && 0 < |r1| && 0 < |r2| &&
      CanDists(canonical, FoldIL(protSeq), sr1Index, sr2Index).Ok?
    ensures SplicedFrom(protSeq, preds, sr1Index, sr2Index, canonical, r1, r2) == Err(ValueError) ==>
      CanDists(canonical, FoldIL(protSeq), sr1Index, sr2Index).Err?
  {
  }

  /** The call succeeds exactly when SR1 and SR2 are non-empty inside the
      protein and, when canonical peptides are given, one of them occurs in
      the folded protein; the only ValueError is the latter failing. */
  lemma SplicedFeaturesErrors(peptide: string, sr1: string, protSeq: string, preds: seq<real>,
                              sr1Index: nat, sr2Index: nat, canonical: seq<string>)
    ensures SplicedFeaturesOf(peptide, sr1, protSeq, preds, sr1Index, sr2Index, canonical).Ok? <==>
      sr1Index < |protSeq| && 0 < |sr1| && sr2Index < |protSeq| && |sr1| < |peptide| &&
      (canonical == [] || exists k :: 0 <= k < |canonical| && FindAll(canonical[k], FoldIL(protSeq)) != [])
    ensures SplicedFeaturesOf(peptide, sr1, protSeq, preds, sr1Index, sr2Index, canonical) == Err(ValueError) ==>
      canonical != [] && forall k :: 0 <= k < |canonical| ==> FindAll(canonical[k], FoldIL(protSeq)) == []
  {
    var r1 := Slice(protSeq, sr1Index, sr1Index + |sr1|);
    var r2 := Slice(protSeq, sr2Index, sr2Index + Sr2Length(peptide, sr1));
    SplicedFromErrors(protSeq, preds, sr1Index, sr2Index, canonical, r1, r2);
    CanDistsErrors(canonical, FoldIL(protSeq), sr1Index, sr2Index);
  }

  // ---------------------------------------------------------------------
  // Background rows and batches

  /** A background candidate after the protein lists are exploded. */
  datatype SplicedCandidate = SplicedCandidate(peptide: string, proteinId: string, sr1Index: int, sr2Index: int)

  function LocationKey(c: SplicedCandidate): (string, string, int, int) {
    (c.peptide, c.proteinId, c.sr1Index, c.sr2Index)
  }

  /** The left join on the positive peptides followed by keeping the rows
      without a match: the candidates whose peptide is not a positive, in
      order. */
  function WithoutPositives(neg: seq<SplicedCandidate>, positives: seq<string>): (r: seq<SplicedCandidate>)
    ensures |r| <= |neg|
    ensures forall j :: 0 <= j < |r| ==> r[j] in neg && r[j].peptide !in positives
    ensures forall i :: 0 <= i < |neg| && neg[i].peptide !in positives ==> neg[i] in r
  {
    if neg == [] then []
    else
      var rest := WithoutPositives(neg[1..], positives);
      assert forall i :: 1 <= i < |neg| ==> neg[i] == neg[1..][i - 1];
      if neg[0].peptide in positives then rest else [neg[0]] + rest
  }

  /** The negatives of the spliced stratum: without the positive peptides,
      then unique on (peptide, proteinID, sr1_Index, sr2_Index). */
  function SplicedNegatives(neg: seq<SplicedCandidate>, positives: seq<string>): seq<SplicedCandidate>
  {
    UniqueBy(WithoutPositives(neg, positives), LocationKey)
  }

  /** No negative has a positive peptide, no location key occurs twice, every
      location of a non-positive candidate is kept, and every kept row is a
      candidate. */
  lemma SplicedNegativesClean(neg: seq<SplicedCandidate>, positives: seq<string>)
    ensures var out := SplicedNegatives(neg, positives);
      (forall j :: 0 <= j < |out| ==> out[j] in neg && out[j].peptide !in positives) &&
      (forall i, j :: 0 <= i < j < |out| ==> LocationKey(out[i]) != LocationKey(out[j])) &&
      (forall i :: 0 <= i < |neg| && neg[i].peptide !in positives ==>
        exists j :: 0 <= j < |out| && LocationKey(out[j]) == LocationKey(neg[i]))
  {
    var kept := WithoutPositives(neg, positives);
    var out := UniqueBy(kept, LocationKey);
    forall j | 0 <= j < |out| ensures out[j] in neg && out[j].peptide !in positives {
      var i :| FirstOfKey(kept, LocationKey, i) && out[j] == kept[i];
    }
    forall i | 0 <= i < |neg| && neg[i].peptide !in positives
      ensures exists j :: 0 <= j < |out| && LocationKey(out[j]) == LocationKey(neg[i])
    {
      var t :| 0 <= t < |kept| && kept[t] == neg[i];
      assert HasKey(out, LocationKey, LocationKey(kept[t]));
    }
  }

  const BatchSize: nat := 1000

  /** `with_row_count('group')` followed by `group // 1_000`. */
  function BatchId(row: nat): nat {
    row / BatchSize
  }

  /** `partition_by('group')` on `n` rows: the row numbers of each group,
      groups in order of first appearance. */
  function Batches(n: nat): (bs: seq<seq<nat>>)
  {
    var count := (n + BatchSize - 1) / BatchSize;
    seq(count, b requires 0 <= b < count =>
      BatchStartsBelow(n, b);
      seq(Min(BatchSize, n - b * BatchSize), k requires 0 <= k => b * BatchSize + k))
  }

  lemma BatchStartsBelow(n: nat, b: nat)
    requires b < (n + BatchSize - 1) / BatchSize
    ensures b * BatchSize < n
  {
  }

  lemma BatchIdOf(b: nat, k: nat)
    requires k < BatchSize
    ensures BatchId(b * BatchSize + k) == b
  {
  }

  /** Every batch holds at most 1000 consecutive rows, all of its group and
      none of another; every row lies in its own group's batch; the batches
      cover the rows in order. */
  lemma BatchesPartitionRows(n: nat)
    ensures var bs := Batches(n);
      (forall b :: 0 <= b < |bs| ==> 0 < |bs[b]| <= BatchSize) &&
      (forall b, k :: 0 <= b < |bs| && 0 <= k < |bs[b]| ==> bs[b][k] == b * BatchSize + k && BatchId(bs[b][k]) == b) &&
      (forall i :: 0 <= i < n ==> BatchId(i) < |bs| && i in bs[BatchId(i)]) &&
      (forall b, i :: 0 <= b < |bs| && i in bs[b] ==> i < n && BatchId(i) == b)
  {
    var bs := Batches(n);
    forall b | 0 <= b < |bs| ensures 0 < |bs[b]| <= BatchSize {
      assert b * BatchSize < n;
    }
    forall b, k | 0 <= b < |bs| && 0 <= k < |bs[b]| ensures bs[b][k] == b * BatchSize + k && BatchId(bs[b][k]) == b {
      BatchIdOf(b, k);
    }
    forall i | 0 <= i < n ensures BatchId(i) < |bs| && i in bs[BatchId(i)] {
      var b := BatchId(i);
      var k := i % BatchSize;
      assert i == b * BatchSize + k;
      assert b < |bs|;
      assert bs[b][k] == i;
    }
  }
}
