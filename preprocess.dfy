/** Feature extraction for canonical and cryptic peptides (`create_features`):
    every occurrence of a peptide in its I/L-folded parent protein is located,
    and for each occurrence the codons around it, a backward scan of the
    upstream codons, the distance to the next stop, the local disorder and
    the flanking residues inside its `*`-delimited fragment are recorded.
    Also the positive-before-negative de-duplication of `process_stratum` and
    the protein-list splitting of `gather_negative_samples`. */
module Preprocess {
  import opened Common
  import opened Constants
  import opened Occurrences
  import Kozak

  // ---------------------------------------------------------------------
  // Codons and the upstream scan

  /** `rna_seq[idx*3:(idx+1)*3]`: the codon of residue `idx`, shorter than
      three letters (or empty) past the end of the transcript. */
  function Codon(rna: string, idx: nat): (c: string)
    ensures |c| <= 3
    ensures 3 * idx + 3 <= |rna| ==> c == rna[3 * idx..3 * idx + 3]
  {
    Slice(rna, 3 * idx, 3 * idx + 3)
  }

  predicate IsStop(codon: string) {
    codon in StopCodons
  }

  /** The largest index in [0, hi] whose codon is a stop codon, or -1: the
      backward scan from `hi` halts there. */
  function StopBelow(rna: string, hi: int): (b: int)
    requires hi >= -1
    ensures -1 <= b <= hi
    ensures b >= 0 ==> IsStop(Codon(rna, b))
    ensures forall j :: b < j <= hi ==> !IsStop(Codon(rna, j))
    decreases hi + 1
  {
    if hi < 0 then -1
    else if IsStop(Codon(rna, hi)) then hi
    else StopBelow(rna, hi - 1)
  }

  /** The nearest (largest) index in (lo, hi] whose codon is AUG. */
  function NearestAug(rna: string, lo: int, hi: int): (r: Option<nat>)
    requires lo >= -1
    ensures r.Some? ==> lo < r.value <= hi && Codon(rna, r.value) == "AUG"
    ensures r.Some? ==> forall j :: r.value < j <= hi ==> Codon(rna, j) != "AUG"
    ensures r.None? ==> forall j :: lo < j <= hi ==> Codon(rna, j) != "AUG"
    decreases hi - lo
  {
    if lo >= hi then None
    else
      match NearestAug(rna, lo + 1, hi)
      case Some(i) => Some(i)
      case None => if Codon(rna, lo + 1) == "AUG" then Some(lo + 1) else None
  }

  /** Whether `codon` is the codon of some index in (lo, hi], as a 0/1 flag. */
  function FlagIn(rna: string, lo: int, hi: int, codon: string): int
    requires lo >= -1
  {
    if exists j :: lo < j <= hi && Codon(rna, j) == codon then 1 else 0
  }

  /** The distance from `hi` back to the nearest AUG in (lo, hi]. */
  function DistIn(rna: string, lo: int, hi: int): Option<int>
    requires lo >= -1
  {
    match NearestAug(rna, lo, hi)
    case None => None
    case Some(i) => Some(hi - i)
  }

  /** The Kozak score of the window `rna[3i-10 .. 3i+13)` around the codon
      of residue `i`, when the window lies strictly inside the transcript. */
  function WindowScore(rna: string, i: nat): (r: Option<real>)
    ensures r.Some? <==> 3 * i > 10 && 3 * i + 13 < |rna|
  {
    if 3 * i > 10 && 3 * i + 13 < |rna| then
      var window := rna[3 * i - 10..3 * i + 13];
      Some(Kozak.KozakScore(window).value)
    else None
  }

  /** The Kozak score the scan of (lo, hi] leaves behind, starting from
      `before`: it is replaced only at the nearest AUG, and only when that
      AUG's window fits. */
  function KozakIn(rna: string, lo: int, hi: int, before: Option<real>): Option<real>
    requires lo >= -1
  {
    match NearestAug(rna, lo, hi)
    case Some(i) => if WindowScore(rna, i).Some? then WindowScore(rna, i) else before
    case None => before
  }

  /** `{codon}_upstream` for the occurrence at `p`: the codon occurs between
      the first stop codon at or before `p` (exclusive) and `p`. */
  function UpstreamFlag(rna: string, p: nat, codon: string): int {
    FlagIn(rna, StopBelow(rna, p), p, codon)
  }

  /** `start_dist` for the occurrence at `p`. */
  function StartDist(rna: string, p: nat): Option<int> {
    DistIn(rna, StopBelow(rna, p), p)
  }

  /** The Kozak score the occurrence at `p` would set. */
  function PositionKozak(rna: string, p: nat): Option<real> {
    KozakIn(rna, StopBelow(rna, p), p, None)
  }

  /** The Kozak score each occurrence would set on its own. */
  function PositionKozaks(rna: string, ps: seq<nat>): (k: seq<Option<real>>)
    ensures |k| == |ps|
  {
    seq(|ps|, q requires 0 <= q < |ps| => PositionKozak(rna, ps[q]))
  }

  /** The single `kozakScore` of a call: that of the last occurrence which
      sets one. */
  function LastKozak(rna: string, ps: seq<nat>): Option<real>
  {
    LastSome(PositionKozaks(rna, ps))
  }

  function UpstreamTable(rna: string, ps: seq<nat>): (t: seq<seq<int>>)
    ensures |t| == |StartCodons|
    ensures forall c :: 0 <= c < |t| ==> |t[c]| == |ps|
  {
    seq(|StartCodons|, c requires 0 <= c < |StartCodons| =>
      seq(|ps|, q requires 0 <= q < |ps| => UpstreamFlag(rna, ps[q], StartCodons[c])))
  }

  function StartDists(rna: string, ps: seq<nat>): (d: seq<Option<int>>)
    ensures |d| == |ps|
  {
    seq(|ps|, q requires 0 <= q < |ps| => StartDist(rna, ps[q]))
  }

  /** Extending the scanned stretch by one index below. */
  lemma ScanStep(rna: string, lo: int, hi: int, before: Option<real>)
    requires 0 <= lo <= hi
    ensures DistIn(rna, lo - 1, hi) ==
      (if DistIn(rna, lo, hi).None? && Codon(rna, lo) == "AUG" then Some(hi - lo) else DistIn(rna, lo, hi))
    ensures KozakIn(rna, lo - 1, hi, before) ==
      (if DistIn(rna, lo, hi).None? && Codon(rna, lo) == "AUG" && WindowScore(rna, lo).Some?
       then WindowScore(rna, lo) else KozakIn(rna, lo, hi, before))
    ensures forall codon :: FlagIn(rna, lo - 1, hi, codon) == (if Codon(rna, lo) == codon then 1 else FlagIn(rna, lo, hi, codon))
  {
    forall codon ensures FlagIn(rna, lo - 1, hi, codon) == (if Codon(rna, lo) == codon then 1 else FlagIn(rna, lo, hi, codon)) {
      if Codon(rna, lo) == codon {
        assert lo - 1 < lo <= hi && Codon(rna, lo) == codon;
      }
    }
  }

  /** The scan from `hi` ends at `b` when `b` is -1 or a stop codon and no
      stop codon lies in (b, hi]. */
  lemma StopBelowIs(rna: string, hi: nat, b: int)
    requires -1 <= b <= hi && (b >= 0 ==> IsStop(Codon(rna, b)))
    requires forall j :: b < j <= hi ==> !IsStop(Codon(rna, j))
    ensures StopBelow(rna, hi) == b
  {
  }

  /** `AUG` is the first start codon and no other start codon equals it. */
  lemma AugIsFirstStartCodon()
    ensures StartCodons[0] == "AUG"
    ensures forall c :: 1 <= c < |StartCodons| ==> StartCodons[c] != "AUG"
  {
  }

  /** One step of the backward scan at a codon that is not a stop codon: the
      start codon it equals is flagged for occurrence `q`; if it is an AUG
      and no nearer AUG was met, the distance is recorded and, when the
      window fits, the Kozak score is recomputed. */
  method ScanCodon(rna: string, position: nat, idx: nat, codon: string, q: nat,
                   upstream: seq<seq<int>>, dist: seq<Option<int>>, kozak: Option<real>)
    returns (upstream': seq<seq<int>>, dist': seq<Option<int>>, kozak': Option<real>)
    requires idx <= position && codon == Codon(rna, idx)
    requires |upstream| == |StartCodons| && forall c :: 0 <= c < |StartCodons| ==> q < |upstream[c]|
    requires q < |dist| && (dist[q].Some? ==> dist[q].value < position - idx)
    ensures |upstream'| == |StartCodons|
    ensures forall c :: 0 <= c < |StartCodons| ==>
      upstream'[c] == if codon == StartCodons[c] then upstream[c][q := 1] else upstream[c]
    ensures dist' == if dist[q].None? && codon == "AUG" then dist[q := Some(position - idx)] else dist
    ensures kozak' == if dist[q].None? && codon == "AUG" && WindowScore(rna, idx).Some?
      then WindowScore(rna, idx) else kozak
  {
    AugIsFirstStartCodon();
    upstream', dist', kozak' := upstream, dist, kozak;
    for c := 0 to |StartCodons|
      invariant |upstream'| == |StartCodons|
      invariant forall c' :: 0 <= c' < c ==>
        upstream'[c'] == if codon == StartCodons[c'] then upstream[c'][q := 1] else upstream[c']
      invariant forall c' :: c <= c' < |StartCodons| ==> upstream'[c'] == upstream[c']
      invariant c == 0 ==> dist' == dist && kozak' == kozak
      invariant c > 0 ==> dist' == (if dist[q].None? && codon == "AUG" then dist[q := Some(position - idx)] else dist)
      invariant c > 0 ==> kozak' == (if dist[q].None? && codon == "AUG" && WindowScore(rna, idx).Some?
        then WindowScore(rna, idx) else kozak)
    {
      if codon == StartCodons[c] {
        upstream' := upstream'[c := upstream'[c][q := 1]];
        var distance := position - idx;
        if (dist'[q].None? || dist'[q].value > distance) && codon == "AUG" {
          dist' := dist'[q := Some(distance)];
          if idx * 3 > 10 && (idx * 3) + 13 < |rna| {
            var score := Kozak.KozakSimilarityScore(rna[(idx * 3) - 10..(idx * 3) + 13]);
            kozak' := Some(score.value);
          }
        }
      }
    }
  }

  /** The scan state once the stretch (idx, position] has been walked:
      occurrence `q`'s flags, distance and the carried Kozak score are those
      of the stretch, everything else is as before the scan. */
  predicate Scanned(rna: string, position: nat, q: nat, idx: int,
                    upstream0: seq<seq<int>>, dist0: seq<Option<int>>, kozak0: Option<real>,
                    upstream: seq<seq<int>>, dist: seq<Option<int>>, kozak: Option<real>)
  {
    -1 <= idx <= position && |upstream0| == |upstream| == |StartCodons| && q < |dist0| &&
    (forall c :: 0 <= c < |StartCodons| ==> q < |upstream0[c]|) &&
    (forall c :: 0 <= c < |StartCodons| ==>
      upstream[c] == upstream0[c][q := FlagIn(rna, idx, position, StartCodons[c])]) &&
    dist == dist0[q := DistIn(rna, idx, position)] &&
    kozak == KozakIn(rna, idx, position, kozak0)
  }

  /** Before the scan, the stretch (position, position] is empty. */
  lemma ScannedInit(rna: string, position: nat, q: nat, upstream0: seq<seq<int>>,
                    dist0: seq<Option<int>>, kozak0: Option<real>)
    requires |upstream0| == |StartCodons| && q < |dist0|
    requires forall c :: 0 <= c < |StartCodons| ==> q < |upstream0[c]| && upstream0[c][q] == 0
    requires dist0[q] == None
    ensures Scanned(rna, position, q, position, upstream0, dist0, kozak0, upstream0, dist0, kozak0)
  {
  }

  /** One codon of the backward scan moves the scan state from the stretch
      (idx, position] to the stretch (idx - 1, position]. */
  lemma ScannedStep(rna: string, position: nat, q: nat, idx: nat,
                    upstream0: seq<seq<int>>, dist0: seq<Option<int>>, kozak0: Option<real>,
                    upstream: seq<seq<int>>, dist: seq<Option<int>>, kozak: Option<real>,
                    upstream': seq<seq<int>>, dist': seq<Option<int>>, kozak': Option<real>)
    requires Scanned(rna, position, q, idx, upstream0, dist0, kozak0, upstream, dist, kozak)
    requires |upstream'| == |StartCodons|
    requires forall c :: 0 <= c < |StartCodons| ==>
      upstream'[c] == if Codon(rna, idx) == StartCodons[c] then upstream[c][q := 1] else upstream[c]
    requires dist' == if dist[q].None? && Codon(rna, idx) == "AUG" then dist[q := Some(position - idx)] else dist
    requires kozak' == if dist[q].None? && Codon(rna, idx) == "AUG" && WindowScore(rna, idx).Some?
      then WindowScore(rna, idx) else kozak
    ensures Scanned(rna, position, q, idx - 1, upstream0, dist0, kozak0, upstream', dist', kozak')
  {
    ScanStep(rna, idx, position, kozak0);
  }

  /** The scan stops at the first stop codon at or below `position`. */
  lemma ScannedFinal(rna: string, position: nat, q: nat, idx: int,
                     upstream0: seq<seq<int>>, dist0: seq<Option<int>>, kozak0: Option<real>,
                     upstream: seq<seq<int>>, dist: seq<Option<int>>, kozak: Option<real>)
    requires Scanned(rna, position, q, idx, upstream0, dist0, kozak0, upstream, dist, kozak)
    requires idx >= 0 ==> IsStop(Codon(rna, idx))
    requires forall j :: idx < j <= position ==> !IsStop(Codon(rna, j))
    ensures forall c :: 0 <= c < |StartCodons| ==>
      upstream[c] == upstream0[c][q := UpstreamFlag(rna, position, StartCodons[c])]
    ensures dist == dist0[q := StartDist(rna, position)]
    ensures kozak == KozakIn(rna, StopBelow(rna, position), position, kozak0)
  {
    StopBelowIs(rna, position, idx);
  }

  /** The inner loop of `create_features` for the occurrence `q` at
      `position`: walks the codons from `position` down to 0, stops at the
      first stop codon, flags the start codons met, records the distance to
      the nearest AUG and, when that AUG's window fits, the Kozak score. */
  method ScanPosition(rna: string, position: nat, q: nat, upstream0: seq<seq<int>>,
                      dist0: seq<Option<int>>, kozak0: Option<real>)
    returns (upstream: seq<seq<int>>, dist: seq<Option<int>>, kozak: Option<real>)
    requires |upstream0| == |StartCodons| && q < |dist0|
    requires forall c :: 0 <= c < |StartCodons| ==> |upstream0[c]| == |dist0| && upstream0[c][q] == 0
    requires dist0[q] == None
    ensures |upstream| == |StartCodons|
    ensures forall c :: 0 <= c < |StartCodons| ==>
      upstream[c] == upstream0[c][q := UpstreamFlag(rna, position, StartCodons[c])]
    ensures dist == dist0[q := StartDist(rna, position)]
    ensures kozak == KozakIn(rna, StopBelow(rna, position), position, kozak0)
  {
    upstream, dist, kozak := upstream0, dist0, kozak0;
    ScannedInit(rna, position, q, upstream0, dist0, kozak0);
    var idx: int := position;
    while idx >= 0
      invariant Scanned(rna, position, q, idx, upstream0, dist0, kozak0, upstream, dist, kozak)
      invariant forall j :: idx < j <= position ==> !IsStop(Codon(rna, j))
      decreases idx
    {
      var codon := Codon(rna, idx);
      if codon in StopCodons {
        break;
      }
      var upstream', dist', kozak' := ScanCodon(rna, position, idx, codon, q, upstream, dist, kozak);
      ScannedStep(rna, position, q, idx, upstream0, dist0, kozak0, upstream, dist, kozak, upstream', dist', kozak');
      upstream, dist, kozak := upstream', dist', kozak';
      idx := idx - 1;
    }
    ScannedFinal(rna, position, q, idx, upstream0, dist0, kozak0, upstream, dist, kozak);
  }

  /** The outer loop's state after the first `q` occurrences: their
      columns are filled in, the later ones still hold their initial value. */
  predicate ScannedUpTo(rna: string, positions: seq<nat>, q: nat,
                        upstream: seq<seq<int>>, startDist: seq<Option<int>>)
  {
    q <= |positions| && |upstream| == |StartCodons| && |startDist| == |positions| &&
    (forall c :: 0 <= c < |StartCodons| ==> |upstream[c]| == |positions|) &&
    (forall c, q' :: 0 <= c < |StartCodons| && 0 <= q' < q ==>
      upstream[c][q'] == UpstreamFlag(rna, positions[q'], StartCodons[c])) &&
    (forall c, q' :: 0 <= c < |StartCodons| && q <= q' < |positions| ==> upstream[c][q'] == 0) &&
    (forall q' :: 0 <= q' < q ==> startDist[q'] == StartDist(rna, positions[q'])) &&
    (forall q' :: q <= q' < |positions| ==> startDist[q'] == None)
  }

  lemma ScannedUpToStep(rna: string, positions: seq<nat>, q: nat,
                    upstream: seq<seq<int>>, startDist: seq<Option<int>>,
                    upstream': seq<seq<int>>, startDist': seq<Option<int>>)
    requires ScannedUpTo(rna, positions, q, upstream, startDist) && q < |positions|
    requires |upstream'| == |StartCodons|
    requires forall c :: 0 <= c < |StartCodons| ==>
      upstream'[c] == upstream[c][q := UpstreamFlag(rna, positions[q], StartCodons[c])]
    requires startDist' == startDist[q := StartDist(rna, positions[q])]
    ensures ScannedUpTo(rna, positions, q + 1, upstream', startDist')
  {
  }

  lemma ScannedUpToEnd(rna: string, positions: seq<nat>, upstream: seq<seq<int>>, startDist: seq<Option<int>>)
    requires ScannedUpTo(rna, positions, |positions|, upstream, startDist)
    ensures upstream == UpstreamTable(rna, positions)
    ensures startDist == StartDists(rna, positions)
  {
    forall c | 0 <= c < |StartCodons|
      ensures upstream[c] == UpstreamTable(rna, positions)[c]
    {
    }
  }

  /** The Kozak score carried past occurrence `q`. */
  lemma LastKozakStep(rna: string, positions: seq<nat>, q: nat, before: Option<real>, after: Option<real>)
    requires q < |positions| && before == LastKozak(rna, positions[..q])
    requires after == KozakIn(rna, StopBelow(rna, positions[q]), positions[q], before)
    ensures after == LastKozak(rna, positions[..q + 1])
  {
    KozakInCarries(rna, positions[q], before);
    var xs := PositionKozaks(rna, positions[..q + 1]);
    assert xs[..q] == PositionKozaks(rna, positions[..q]) by {
      forall k | 0 <= k < q ensures xs[k] == PositionKozaks(rna, positions[..q])[k] {
        assert positions[..q + 1][k] == positions[..q][k];
      }
    }
    LastSomeSnoc(xs);
  }

  /** The nested scan over all occurrences; the Kozak score carries over
      from one occurrence to the next. */
  method ScanUpstream(rna: string, positions: seq<nat>)
    returns (upstream: seq<seq<int>>, startDist: seq<Option<int>>, kozakScore: Option<real>)
    ensures upstream == UpstreamTable(rna, positions)
    ensures startDist == StartDists(rna, positions)
    ensures kozakScore == LastKozak(rna, positions)
  {
    var n := |positions|;
    upstream := seq(|StartCodons|, c => seq(n, q => 0));
    startDist := seq(n, q => None);
    kozakScore := None;
    for q := 0 to n
      invariant ScannedUpTo(rna, positions, q, upstream, startDist)
      invariant kozakScore == LastKozak(rna, positions[..q])
    {
      var upstream', startDist', kozakScore' := ScanPosition(rna, positions[q], q, upstream, startDist, kozakScore);
      ScannedUpToStep(rna, positions, q, upstream, startDist, upstream', startDist');
      LastKozakStep(rna, positions, q, kozakScore, kozakScore');
      upstream, startDist, kozakScore := upstream', startDist', kozakScore';
    }
    ScannedUpToEnd(rna, positions, upstream, startDist);
    assert positions[..n] == positions;
  }

  /** The backward scan halts at the first stop codon; a start codon is
      flagged exactly when it occurs in the scanned stretch; `start_dist` is
      the distance back to the nearest AUG of that stretch, never negative,
      and is None exactly when the stretch holds no AUG. */
  lemma UpstreamScanMeaning(rna: string, p: nat, codon: string)
    ensures var b := StopBelow(rna, p);
      -1 <= b <= p && (b >= 0 ==> IsStop(Codon(rna, b))) &&
      (forall j :: b < j <= p ==> !IsStop(Codon(rna, j))) &&
      (UpstreamFlag(rna, p, codon) == 1 <==> exists j :: b < j <= p && Codon(rna, j) == codon) &&
      (UpstreamFlag(rna, p, codon) == 0 <==> !exists j :: b < j <= p && Codon(rna, j) == codon)
    ensures match StartDist(rna, p)
      case None => forall j :: StopBelow(rna, p) < j <= p ==> Codon(rna, j) != "AUG"
      case Some(d) => 0 <= d && StopBelow(rna, p) < p - d && Codon(rna, p - d) == "AUG" &&
                      forall j :: p - d < j <= p ==> Codon(rna, j) != "AUG"
  {
  }

  /** When an occurrence sets the Kozak score, the window it scores is
      exactly 23 characters (so the length assertion never fails) and lies
      around the nearest AUG of the scanned stretch; the score is in [0, 1]. */
  lemma PositionKozakMeaning(rna: string, p: nat)
    ensures PositionKozak(rna, p).Some? <==>
      exists i :: NearestAug(rna, StopBelow(rna, p), p) == Some(i) && 3 * i > 10 && 3 * i + 13 < |rna|
    ensures PositionKozak(rna, p).Some? ==>
      var i := NearestAug(rna, StopBelow(rna, p), p).value;
      |rna[3 * i - 10..3 * i + 13]| == Kozak.WindowLength &&
      PositionKozak(rna, p) == Some(Kozak.KozakScore(rna[3 * i - 10..3 * i + 13]).value) &&
      0.0 <= PositionKozak(rna, p).value <= 1.0
  {
    if PositionKozak(rna, p).Some? {
      var i := NearestAug(rna, StopBelow(rna, p), p).value;
      Kozak.KozakScoreInUnitInterval(rna[3 * i - 10..3 * i + 13]);
    }
  }

  /** An occurrence overwrites the carried Kozak score exactly when it sets
      one of its own. */
  lemma KozakInCarries(rna: string, p: nat, before: Option<real>)
    ensures KozakIn(rna, StopBelow(rna, p), p, before) ==
      if PositionKozak(rna, p).Some? then PositionKozak(rna, p) else before
  {
  }

  // ---------------------------------------------------------------------
  // Fragment flanks

  /** The flank columns of one occurrence inside one `*`-delimited fragment. */
  datatype FragmentRow = FragmentRow(
    fragmentLength: nat,
    cTermDownstream: char,    // C_term_downstream
    cTermDownstream2: char,   // C_term_downstream_2
    nTermUpstream: char,      // N_term_upstream
    nTermUpstream2: char,     // N_term_upstream_2
    cTermNeg1: seq<int>,      // C_term_neg_1_{group}, groups in AaGroups order
    cTermNeg1End: int)        // C_term_neg_1_end

  /** The row for a match at `pos` of a peptide of length `len` in `frag`;
      the fragment is read padded with `XX` on the right, and `X`s are put
      in front of it for the upstream letters. */
  function RowAt(frag: string, pos: nat, len: nat): FragmentRow
    requires pos + len <= |frag|
  {
    var padded := frag + "XX";
    FragmentRow(|frag|, padded[pos + len], padded[pos + len + 1], ("X" + padded)[pos], ("XX" + padded)[pos],
                GroupFlags(padded[pos + len]), if padded[pos + len] == 'X' then 1 else 0)
  }

  /** The rows of all matches of `peptide` in one fragment (matched after
      folding I to L, read from the unfolded fragment). */
  function RowsOfFragment(peptide: string, frag: string): (rows: seq<FragmentRow>)
    ensures |rows| == |FindAll(peptide, FoldIL(frag))|
  {
    var ps := FindAll(peptide, FoldIL(frag));
    seq(|ps|, k requires 0 <= k < |ps| => RowAt(frag, ps[k], |peptide|))
  }

  function FragmentRowsOf(peptide: string, frags: seq<string>): seq<FragmentRow>
  {
    if frags == [] then [] else RowsOfFragment(peptide, frags[0]) + FragmentRowsOf(peptide, frags[1..])
  }

  lemma {:induction false} FragmentRowsOfAppend(peptide: string, frags: seq<string>, frag: string)
    ensures FragmentRowsOf(peptide, frags + [frag]) == FragmentRowsOf(peptide, frags) + RowsOfFragment(peptide, frag)
  {
    if frags != [] {
      assert (frags + [frag])[1..] == frags[1..] + [frag];
      FragmentRowsOfAppend(peptide, frags[1..], frag);
    } else {
      assert FragmentRowsOf(peptide, [frag]) == RowsOfFragment(peptide, frag) + FragmentRowsOf(peptide, []);
    }
  }

  /** The body of the per-fragment loop of `create_features`: when the
      folded fragment contains the peptide, one row per match. */
  method FragmentMatches(peptide: string, protFrag: string) returns (rows: seq<FragmentRow>)
    ensures rows == RowsOfFragment(peptide, protFrag)
  {
    var pepLen := |peptide|;
    var paddedFrag := protFrag + "XX";
    var folded := FoldIL(protFrag);
    rows := [];
    ContainsIffFound(folded, peptide);
    if Contains(folded, peptide) {
      var ps := FindAll(peptide, folded);
      for k := 0 to |ps|
        invariant rows == RowsOfFragment(peptide, protFrag)[..k]
      {
        var pos := ps[k];
        var downstream := paddedFrag[pos + pepLen];
        var row := FragmentRow(|protFrag|, downstream, paddedFrag[pos + pepLen + 1],
                               ("X" + paddedFrag)[pos], ("XX" + paddedFrag)[pos],
                               GroupFlags(downstream), if downstream == 'X' then 1 else 0);
        assert row == RowsOfFragment(peptide, protFrag)[k];
        rows := rows + [row];
      }
    }
  }

  /** The per-fragment loop of `create_features`: splits the protein at `*`
      and collects the rows of every fragment. */
  method FragmentFeatures(peptide: string, protSeq: string) returns (rows: seq<FragmentRow>)
    ensures rows == FragmentRowsOf(peptide, Split(protSeq, '*'))
  {
    var protSplits := Split(protSeq, '*');
    rows := [];
    for f := 0 to |protSplits|
      invariant rows == FragmentRowsOf(peptide, protSplits[..f])
    {
      var fragRows := FragmentMatches(peptide, protSplits[f]);
      assert protSplits[..f + 1] == protSplits[..f] + [protSplits[f]];
      FragmentRowsOfAppend(peptide, protSplits[..f], protSplits[f]);
      rows := rows + fragRows;
    }
    assert protSplits[..|protSplits|] == protSplits;
  }

  /** Each row reads its flanks from the fragment padded with `X`: the
      downstream letter is the fragment's next residue, or `X` at the
      fragment's end; `C_term_neg_1_end` is 1 exactly for an `X`; the group
      one-hot has a single 1 for a standard residue and none for `X`. */
  lemma RowAtMeaning(frag: string, pos: nat, len: nat)
    requires pos + len <= |frag|
    ensures var row := RowAt(frag, pos, len);
      row.fragmentLength == |frag| &&
      row.cTermDownstream == (if pos + len < |frag| then frag[pos + len] else 'X') &&
      row.cTermDownstream2 == (if pos + len + 1 < |frag| then frag[pos + len + 1] else 'X') &&
      row.nTermUpstream == (if pos >= 1 then frag[pos - 1] else 'X') &&
      row.nTermUpstream2 == (if pos >= 2 then frag[pos - 2] else 'X') &&
      (row.cTermNeg1End == 1 <==> row.cTermDownstream == 'X') &&
      SumInts(row.cTermNeg1) == (if row.cTermDownstream in AminoAcids then 1 else 0)
  {
    GroupFlagsOneHot(RowAt(frag, pos, len).cTermDownstream);
  }

  /** The rows of a fragment list correspond one to one to the matches
      counted fragment by fragment. */
  lemma {:induction false} FragmentRowsCount(peptide: string, frags: seq<string>, offset: nat)
    ensures |FragmentRowsOf(peptide, frags)| == |FragmentPositions(peptide, FoldAll(frags), offset)|
    decreases |frags|
  {
    if frags != [] {
      var rest := frags[1..];
      FragmentRowsCount(peptide, rest, offset + |frags[0]| + 1);
      assert FoldAll(frags)[1..] == FoldAll(rest);
      assert |FoldAll(frags)[0]| == |frags[0]|;
      assert |FragmentPositions(peptide, FoldAll(frags), offset)| ==
        |FindAll(peptide, FoldIL(frags[0]))| + |FragmentPositions(peptide, FoldAll(rest), offset + |frags[0]| + 1)|;
      assert |FragmentRowsOf(peptide, frags)| == |RowsOfFragment(peptide, frags[0])| + |FragmentRowsOf(peptide, rest)|;
    }
  }

  /** For a peptide without `*`, the fragment loop produces exactly one row
      per occurrence found in the whole folded protein, which is what the
      joint explode of the per-occurrence and per-fragment columns needs. */
  lemma FragmentRowsAligned(peptide: string, protSeq: string)
    requires '*' !in peptide
    ensures |FragmentRowsOf(peptide, Split(protSeq, '*'))| == |FindAll(peptide, FoldIL(protSeq))|
  {
    SplitFoldIL(protSeq, '*');
    FindAllBySplit(peptide, FoldIL(protSeq), '*', 0);
    FragmentRowsCount(peptide, Split(protSeq, '*'), 0);
  }

  // ---------------------------------------------------------------------
  // The whole feature dictionary

  datatype Features = Features(
    peptideHydrophobicity: real,
    protLength: nat,
    cTerm: seq<int>,                // C_term_{group}, groups in AaGroups order
    nucleotideFracs: seq<real>,     // A_frac, U_frac, G_frac, C_frac
    position: seq<nat>,
    ilPeptide: seq<string>,
    upstream: seq<seq<int>>,        // {codon}_upstream, codons in StartCodons order
    startDist: seq<Option<int>>,
    endCodon: seq<string>,
    postCodon: seq<string>,
    kozakScore: Option<real>,
    relativePosition: seq<real>,
    localDisorder: seq<Option<real>>,  // None for numpy's mean of an empty slice
    stopDistances: seq<nat>,
    fragments: seq<FragmentRow>)

  const Nucleotides: string := "AUGC"

  function NucleotideFractions(rna: string): (r: seq<real>)
    requires |rna| > 0
    ensures |r| == |Nucleotides|
    ensures forall k :: 0 <= k < |r| ==> 0.0 <= r[k] <= 1.0
  {
    var r := seq(|Nucleotides|, k requires 0 <= k < |Nucleotides| =>
      Count(rna, Nucleotides[k]) as real / |rna| as real);
    assert forall k :: 0 <= k < |r| ==> 0.0 <= r[k] <= 1.0 by {
      forall k | 0 <= k < |r| ensures 0.0 <= r[k] <= 1.0 {
        FractionBounds(Count(rna, Nucleotides[k]), |rna|);
      }
    }
    r
  }

  /** `il_peptide`: the unfolded protein slice at each occurrence; every
      occurrence of the peptide in the folded protein folds back to it. */
  function OccurrenceSlices(peptide: string, protSeq: string, ps: seq<nat>): (r: seq<string>)
    requires forall k :: 0 <= k < |ps| ==> MatchAt(peptide, FoldIL(protSeq), ps[k])
    ensures |r| == |ps|
    ensures forall k :: 0 <= k < |ps| ==> |r[k]| == |peptide| && FoldIL(r[k]) == peptide
  {
    forall k | 0 <= k < |ps| ensures ps[k] + |peptide| <= |protSeq| {
      assert MatchAt(peptide, FoldIL(protSeq), ps[k]);
    }
    var r := seq(|ps|, k requires 0 <= k < |ps| => protSeq[ps[k]..ps[k] + |peptide|]);
    assert forall k :: 0 <= k < |ps| ==> FoldIL(r[k]) == peptide by {
      forall k | 0 <= k < |ps| ensures FoldIL(r[k]) == peptide {
        assert r[k] == protSeq[ps[k]..ps[k] + |peptide|];
        assert MatchAt(peptide, FoldIL(protSeq), ps[k]);
        FoldILSlice(protSeq, ps[k], ps[k] + |peptide|);
      }
    }
    r
  }

  /** Every occurrence found in the folded protein ends inside the protein. */
  lemma OccurrencesWithin(peptide: string, protSeq: string)
    ensures var ps := FindAll(peptide, FoldIL(protSeq));
      forall k :: 0 <= k < |ps| ==> ps[k] + |peptide| <= |protSeq|
  {
    var ps := FindAll(peptide, FoldIL(protSeq));
    forall k | 0 <= k < |ps| ensures ps[k] + |peptide| <= |protSeq| {
      assert MatchAt(peptide, FoldIL(protSeq), ps[k]);
    }
  }

  /** `endCodon` (offset `len - 1`) and `postCodon` (offset `len`): the
      codon `offset` residues past each occurrence. */
  function CodonsAt(rna: string, ps: seq<nat>, offset: nat): (r: seq<string>)
    ensures |r| == |ps|
    ensures forall k :: 0 <= k < |ps| ==> r[k] == Codon(rna, ps[k] + offset)
    ensures forall k :: 0 <= k < |ps| ==> (|r[k]| == 3 <==> 3 * (ps[k] + offset + 1) <= |rna|)
  {
    seq(|ps|, k requires 0 <= k < |ps| => Slice(rna, (ps[k] + offset) * 3, (ps[k] + offset + 1) * 3))
  }

  /** `relativePosition`: each occurrence's start as a fraction of the
      protein length, in [0, 1). */
  function RelativePositions(ps: seq<nat>, n: nat): (r: seq<real>)
    requires forall k :: 0 <= k < |ps| ==> ps[k] < n
    ensures |r| == |ps|
    ensures forall k :: 0 <= k < |ps| ==> 0.0 <= r[k] < 1.0 && r[k] * (n as real) == ps[k] as real
  {
    var r := seq(|ps|, k requires 0 <= k < |ps| => assert 0 <= ps[k] < n; ps[k] as real / n as real);
    assert forall k :: 0 <= k < |ps| ==> 0.0 <= r[k] < 1.0 && r[k] * (n as real) == ps[k] as real by {
      forall k | 0 <= k < |ps| ensures 0.0 <= r[k] < 1.0 && r[k] * (n as real) == ps[k] as real {
        FractionBounds(ps[k], n);
      }
    }
    r
  }

  /** `localDisorder`: the mean disorder prediction over each occurrence,
      undefined (numpy's `nan`) when the predictions end before it. */
  function LocalDisorder(preds: seq<real>, ps: seq<nat>, len: nat): (r: seq<Option<real>>)
    requires len > 0
    ensures |r| == |ps|
    ensures forall k :: 0 <= k < |ps| ==> (r[k].Some? <==> ps[k] < |preds|)
    ensures forall k :: 0 <= k < |ps| ==>
      r[k] == Mean(preds[Min(ps[k], |preds|)..Min(ps[k] + len, |preds|)])
  {
    seq(|ps|, k requires 0 <= k < |ps| => Mean(Slice(preds, ps[k], ps[k] + len)))
  }

  /** The distance from `end` to the next `*` of `il`, or to its end when
      there is none. */
  function StopDistance(il: string, end: nat): (d: nat)
    requires end <= |il|
    ensures end + d <= |il|
    ensures end + d < |il| ==> il[end + d] == '*'
    ensures forall j :: end <= j < end + d ==> il[j] != '*'
  {
    var d := IndexOf(il[end..], '*');
    assert forall j :: end <= j < end + d ==> il[j] != '*' by {
      forall j | end <= j < end + d ensures il[j] != '*' {
        assert il[end..][j - end] != '*';
      }
    }
    assert end + d < |il| ==> il[end..][d] == '*';
    d
  }

  /** `stopDistances`: the distance from the end of each occurrence to the
      next stop. */
  function StopDistances(il: string, ps: seq<nat>, len: nat): (r: seq<nat>)
    requires forall k :: 0 <= k < |ps| ==> ps[k] + len <= |il|
    ensures |r| == |ps|
    ensures forall k :: 0 <= k < |ps| ==> r[k] == StopDistance(il, ps[k] + len)
  {
    seq(|ps|, k requires 0 <= k < |ps| => StopDistance(il, ps[k] + len))
  }

  /** Folding I to L leaves every `*` where it is, so a distance measured on
      the folded protein is the distance on the protein itself. */
  lemma StopDistanceUnfolded(protSeq: string, end: nat)
    requires end <= |protSeq|
    ensures var d := StopDistance(FoldIL(protSeq), end);
      end + d <= |protSeq| &&
      (end + d < |protSeq| ==> protSeq[end + d] == '*') &&
      (forall j :: end <= j < end + d ==> protSeq[j] != '*')
  {
    var il := FoldIL(protSeq);
    var d := StopDistance(il, end);
    if end + d < |protSeq| {
      assert il[end + d] == '*';
    }
    forall j | end <= j < end + d ensures protSeq[j] != '*' {
      assert il[j] != '*';
    }
  }

  /** What `create_features` returns or raises. The hydrophobicity (GRAVY)
      is computed by a library routine, a parameter here; a failure there
      comes first, then `peptide[-1]` on an empty peptide, then the
      nucleotide fractions of an empty transcript. */
  function FeaturesOf(peptide: string, protSeq: string, rnaSeq: string, iupred3Preds: seq<real>,
                      gravy: string -> Result<real>): Result<Features>
  {
    var hydrophobicity := gravy(peptide);
    if hydrophobicity.Err? then Err(hydrophobicity.error)
    else if |peptide| == 0 then Err(IndexError)
    else if |rnaSeq| == 0 then Err(ZeroDivisionError)
    else
      var len := |peptide|;
      var ilProtSeq := FoldIL(protSeq);
      var ps := FindAll(peptide, ilProtSeq);
      OccurrencesWithin(peptide, protSeq);
      Ok(Features(
        hydrophobicity.value,
        |protSeq|,
        GroupFlags(peptide[len - 1]),
        NucleotideFractions(rnaSeq),
        ps,
        OccurrenceSlices(peptide, protSeq, ps),
        UpstreamTable(rnaSeq, ps),
        StartDists(rnaSeq, ps),
        CodonsAt(rnaSeq, ps, len - 1),
        CodonsAt(rnaSeq, ps, len),
        LastKozak(rnaSeq, ps),
        RelativePositions(ps, |protSeq|),
        LocalDisorder(iupred3Preds, ps, len),
        StopDistances(ilProtSeq, ps, len),
        FragmentRowsOf(peptide, Split(protSeq, '*'))))
  }

  /** The columns of a successful call, one expression each. */
  lemma FeaturesOfColumns(peptide: string, protSeq: string, rnaSeq: string, iupred3Preds: seq<real>,
                          gravy: string -> Result<real>)
    requires gravy(peptide).Ok? && |peptide| > 0 && |rnaSeq| > 0
    ensures var len := |peptide|;
      var il := FoldIL(protSeq);
      var ps := FindAll(peptide, il);
      (forall k :: 0 <= k < |ps| ==> ps[k] + len <= |protSeq|) &&
      FeaturesOf(peptide, protSeq, rnaSeq, iupred3Preds, gravy) ==
        Ok(Features(gravy(peptide).value, |protSeq|, GroupFlags(peptide[len - 1]), NucleotideFractions(rnaSeq),
                    ps, OccurrenceSlices(peptide, protSeq, ps), UpstreamTable(rnaSeq, ps), StartDists(rnaSeq, ps),
                    CodonsAt(rnaSeq, ps, len - 1), CodonsAt(rnaSeq, ps, len), LastKozak(rnaSeq, ps),
                    RelativePositions(ps, |protSeq|), LocalDisorder(iupred3Preds, ps, len),
                    StopDistances(il, ps, len), FragmentRowsOf(peptide, Split(protSeq, '*'))))
  {
    OccurrencesWithin(peptide, protSeq);
  }

  /** `create_features`. */
  method CreateFeatures(peptide: string, protSeq: string, rnaSeq: string, iupred3Preds: seq<real>,
                        gravy: string -> Result<real>) returns (r: Result<Features>)
    ensures r == FeaturesOf(peptide, protSeq, rnaSeq, iupred3Preds, gravy)
  {
    var hydrophobicity := gravy(peptide);
    if hydrophobicity.Err? {
      return Err(hydrophobicity.error);
    }
    var ilProtSeq := FoldIL(protSeq);
    var pepLen := |peptide|;
    var protLength := |protSeq|;
    if pepLen == 0 {
      return Err(IndexError);
    }
    var cTerm := GroupFlags(peptide[pepLen - 1]);
    if |rnaSeq| == 0 {
      return Err(ZeroDivisionError);
    }
    var fracs := NucleotideFractions(rnaSeq);
    var position := FindAll(peptide, ilProtSeq);
    OccurrencesWithin(peptide, protSeq);
    var ilPeptide := OccurrenceSlices(peptide, protSeq, position);
    var endCodon := CodonsAt(rnaSeq, position, pepLen - 1);
    var postCodon := CodonsAt(rnaSeq, position, pepLen);
    var upstream, startDist, kozakScore := ScanUpstream(rnaSeq, position);
    var relativePosition := RelativePositions(position, protLength);
    var localDisorder := LocalDisorder(iupred3Preds, position, pepLen);
    var stopDistances := StopDistances(ilProtSeq, position, pepLen);
    var fragments := FragmentFeatures(peptide, protSeq);
    r := Ok(Features(hydrophobicity.value, protLength, cTerm, fracs, position, ilPeptide, upstream, startDist,
                     endCodon, postCodon, kozakScore, relativePosition, localDisorder, stopDistances, fragments));
    FeaturesOfColumns(peptide, protSeq, rnaSeq, iupred3Preds, gravy);
  }

  /** `create_features` fails exactly when the hydrophobicity routine fails,
      the peptide is empty, or the transcript is empty. */
  lemma FeaturesErrors(peptide: string, protSeq: string, rnaSeq: string, iupred3Preds: seq<real>,
                       gravy: string -> Result<real>)
    ensures FeaturesOf(peptide, protSeq, rnaSeq, iupred3Preds, gravy).Err? <==>
      gravy(peptide).Err? || |peptide| == 0 || |rnaSeq| == 0
    ensures gravy(peptide).Ok? && |peptide| == 0 ==>
      FeaturesOf(peptide, protSeq, rnaSeq, iupred3Preds, gravy) == Err(IndexError)
    ensures gravy(peptide).Ok? && |peptide| > 0 && |rnaSeq| == 0 ==>
      FeaturesOf(peptide, protSeq, rnaSeq, iupred3Preds, gravy) == Err(ZeroDivisionError)
  {
  }

  /** The occurrences: every position starts a copy of the peptide in the
      folded protein; positions increase and matches do not overlap; a match
      not reported overlaps an earlier reported one. */
  lemma FeaturePositions(peptide: string, protSeq: string, rnaSeq: string, iupred3Preds: seq<real>,
                         gravy: string -> Result<real>)
    requires FeaturesOf(peptide, protSeq, rnaSeq, iupred3Preds, gravy).Ok?
    ensures var f := FeaturesOf(peptide, protSeq, rnaSeq, iupred3Preds, gravy).value;
      (forall k :: 0 <= k < |f.position| ==>
        f.position[k] + |peptide| <= |protSeq| &&
        FoldIL(protSeq)[f.position[k]..f.position[k] + |peptide|] == peptide) &&
      (forall k :: 0 <= k < |f.position| - 1 ==> f.position[k] + |peptide| <= f.position[k + 1]) &&
      (forall j :: MatchAt(peptide, FoldIL(protSeq), j) ==>
        j in f.position || exists p :: p in f.position && p < j < p + |peptide|)
  {
    var f := FeaturesOf(peptide, protSeq, rnaSeq, iupred3Preds, gravy).value;
    assert f.position == FindAll(peptide, FoldIL(protSeq));
    forall j | MatchAt(peptide, FoldIL(protSeq), j)
      ensures j in f.position || exists p :: p in f.position && p < j < p + |peptide|
    {
      FindAllLeftmost(peptide, FoldIL(protSeq), j);
    }
  }

  /** Every per-occurrence column has one entry per position (each start
      codon's flag list too), and for a peptide without `*` so has the
      per-fragment output, so the columns explode together. */
  lemma FeaturesExplodeAligned(peptide: string, protSeq: string, rnaSeq: string, iupred3Preds: seq<real>,
                               gravy: string -> Result<real>)
    requires FeaturesOf(peptide, protSeq, rnaSeq, iupred3Preds, gravy).Ok?
    ensures var f := FeaturesOf(peptide, protSeq, rnaSeq, iupred3Preds, gravy).value;
      var n := |f.position|;
      |f.ilPeptide| == n && |f.startDist| == n && |f.endCodon| == n && |f.postCodon| == n &&
      |f.relativePosition| == n && |f.localDisorder| == n && |f.stopDistances| == n &&
      |f.upstream| == |StartCodons| && (forall c :: 0 <= c < |StartCodons| ==> |f.upstream[c]| == n) &&
      ('*' !in peptide ==> |f.fragments| == n)
  {
    if '*' !in peptide {
      FragmentRowsAligned(peptide, protSeq);
    }
  }

  /** The C-terminal group one-hot has exactly one 1 when the last residue is
      a standard residue and none otherwise. */
  lemma FeatureCTermOneHot(peptide: string, protSeq: string, rnaSeq: string, iupred3Preds: seq<real>,
                           gravy: string -> Result<real>)
    requires FeaturesOf(peptide, protSeq, rnaSeq, iupred3Preds, gravy).Ok?
    ensures var f := FeaturesOf(peptide, protSeq, rnaSeq, iupred3Preds, gravy).value;
      SumInts(f.cTerm) == if peptide[|peptide| - 1] in AminoAcids then 1 else 0
  {
    GroupFlagsOneHot(peptide[|peptide| - 1]);
  }

  // ---------------------------------------------------------------------
  // Row bookkeeping of process_stratum and gather_negative_samples

  /** A training row before feature extraction: positives carry label 1,
      background negatives label 0. */
  datatype Sample = Sample(peptide: string, proteinId: string, classLabel: int)

  function PeptideProtein(s: Sample): (string, string) {
    (s.peptide, s.proteinId)
  }

  /** The concatenation of the present tables, positives first, made unique
      on (peptide, proteinID) keeping the first row; None when both are
      missing. */
  function CombineSamples(pos: Option<seq<Sample>>, neg: Option<seq<Sample>>): Option<seq<Sample>>
  {
    if pos.None? && neg.None? then None
    else
      var total := (if pos.Some? then pos.value else []) + (if neg.Some? then neg.value else []);
      Some(UniqueBy(total, PeptideProtein))
  }

  /** A (peptide, protein) pair that is both positive and negative survives
      once, as the positive row; every pair occurs once; every row comes from
      the inputs. */
  lemma CombineSamplesPrefersPositives(pos: seq<Sample>, neg: Option<seq<Sample>>)
    requires forall i :: 0 <= i < |pos| ==> pos[i].classLabel == 1
    ensures var out := CombineSamples(Some(pos), neg).value;
      (forall i, j :: 0 <= i < j < |out| ==> PeptideProtein(out[i]) != PeptideProtein(out[j])) &&
      (forall i :: 0 <= i < |pos| ==> exists j :: (0 <= j < |out| && out[j].classLabel == 1 &&
         PeptideProtein(out[j]) == PeptideProtein(pos[i]))) &&
      (neg.Some? ==> forall i :: 0 <= i < |neg.value| ==> HasKey(out, PeptideProtein, PeptideProtein(neg.value[i])))
  {
    var total := pos + (if neg.Some? then neg.value else []);
    var out := UniqueBy(total, PeptideProtein);
    forall i | 0 <= i < |pos|
      ensures exists j :: 0 <= j < |out| && out[j].classLabel == 1 && PeptideProtein(out[j]) == PeptideProtein(pos[i])
    {
      assert total[i] == pos[i];
      var j := PositiveKept(total, |pos|, i);
    }
    if neg.Some? {
      forall i | 0 <= i < |neg.value|
        ensures HasKey(out, PeptideProtein, PeptideProtein(neg.value[i]))
      {
        assert total[|pos| + i] == neg.value[i];
      }
    }
  }

  /** The row kept for the key of a leading positive row is itself one of
      the leading positive rows. */
  lemma PositiveKept(total: seq<Sample>, np: nat, i: nat) returns (j: nat)
    requires i < np <= |total|
    requires forall k :: 0 <= k < np ==> total[k].classLabel == 1
    ensures j < |UniqueBy(total, PeptideProtein)|
    ensures UniqueBy(total, PeptideProtein)[j].classLabel == 1
    ensures PeptideProtein(UniqueBy(total, PeptideProtein)[j]) == PeptideProtein(total[i])
  {
    var out := UniqueBy(total, PeptideProtein);
    assert HasKey(out, PeptideProtein, PeptideProtein(total[i]));
    j :| 0 <= j < |out| && PeptideProtein(out[j]) == PeptideProtein(total[i]);
    var t :| FirstOfKey(total, PeptideProtein, t) && out[j] == total[t];
    assert t <= i;
  }

  /** A background peptide with the space-separated protein list of its
      stratum. */
  datatype NegativeRow = NegativeRow(peptide: string, proteins: string)

  /** `[a for a in x.split(' ') if a]` followed by `explode`: one row per
      listed protein; a row whose list is empty becomes a single row with a
      null protein. */
  function ExplodeProteins(rows: seq<NegativeRow>): seq<(string, Option<string>)>
  {
    if rows == [] then []
    else
      var ids := Tokens(rows[0].proteins);
      (if ids == [] then [(rows[0].peptide, None)]
       else seq(|ids|, k requires 0 <= k < |ids| => (rows[0].peptide, Some(ids[k]))))
      + ExplodeProteins(rows[1..])
  }

  /** Every exploded protein identifier is non-empty and contains no space,
      and every output row keeps the peptide of an input row. */
  lemma {:induction false} ExplodeProteinsClean(rows: seq<NegativeRow>)
    ensures forall k :: 0 <= k < |ExplodeProteins(rows)| ==>
      var row := ExplodeProteins(rows)[k];
      (row.1.Some? ==> row.1.value != "" && ' ' !in row.1.value) &&
      exists i :: 0 <= i < |rows| && rows[i].peptide == row.0
    ensures |ExplodeProteins(rows)| >= |rows|
  {
    if rows != [] {
      ExplodeProteinsClean(rows[1..]);
      var ids := Tokens(rows[0].proteins);
      var head := if ids == [] then [(rows[0].peptide, None)]
        else seq(|ids|, k requires 0 <= k < |ids| => (rows[0].peptide, Some(ids[k])));
      var out := ExplodeProteins(rows);
      assert out == head + ExplodeProteins(rows[1..]);
      forall k | 0 <= k < |out|
        ensures var row := out[k];
          (row.1.Some? ==> row.1.value != "" && ' ' !in row.1.value) &&
          exists i :: 0 <= i < |rows| && rows[i].peptide == row.0
      {
        if k < |head| {
          if ids != [] {
            assert ids[k] in ids;
          }
          assert rows[0].peptide == out[k].0;
        } else {
          var i :| 0 <= i < |rows[1..]| && rows[1..][i].peptide == out[k].0;
          assert rows[i + 1].peptide == out[k].0;
        }
      }
    }
  }
  /** The rows one input row explodes into: one per non-empty piece of
      `proteins.split(' ')`, in order, or a single row with a null protein
      when there is none. */
  lemma ExplodeProteinsOfRow(row: NegativeRow)
    ensures var pieces := Filter(Split(row.proteins, ' '), NonEmpty());
      var out := ExplodeProteins([row]);
      (pieces == [] ==> out == [(row.peptide, None)]) &&
      (pieces != [] ==> |out| == |pieces| &&
                        forall k :: 0 <= k < |pieces| ==> out[k] == (row.peptide, Some(pieces[k])))
  {
    TokensIsFilteredSplit(row.proteins);
    assert [row][1..] == [];
  }

  /** The explode works row by row: the rows of a concatenation are the
      rows of each part, in order. */
  lemma {:induction false} ExplodeProteinsAppend(a: seq<NegativeRow>, b: seq<NegativeRow>)
    ensures ExplodeProteins(a + b) == ExplodeProteins(a) + ExplodeProteins(b)
    decreases |a|
  {
    if a == [] {
      assert a + b == b;
    } else {
      assert (a + b)[0] == a[0] && (a + b)[1..] == a[1..] + b;
      ExplodeProteinsAppend(a[1..], b);
    }
  }

}
