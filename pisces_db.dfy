/** Assembly of the PISCES peptide database from the identifications of many
    projects: the confidence filters on the identifications, which details
    file each stratum reads, the stratum labels and discoverability flags,
    the rule that collapses a peptide found in several strata into one row,
    the union of list-valued columns, and the final parsing of the
    space-separated list columns together with their count columns. */
module PiscesDb {
  import opened Common
  import opened Occurrences
  import Train

  // ---------------------------------------------------------------------
  // Stratum names and labels
  // ---------------------------------------------------------------------

  /** The eight per-project tables, in the order they are processed. */
  const AllNames: seq<string> := [
    "canonical (t/d)", "contam (t/d)", "canonical (pisces)", "contaminant",
    "spliced", "multi-mapped", "cryptic", "unmapped"
  ]

  /** The stratum recorded for the peptides of the table called `name`. */
  function StratumLabel(name: string): string {
    if Contains(name, "canonical") then "canonical"
    else if name == "contam (t/d)" then "contaminant"
    else name
  }

  /** The (piscesDiscoverable, tdDiscoverable) flags of a table: target-decoy
      tables are found by the database search, the others only by PISCES. */
  function Discoverability(name: string): (bool, bool) {
    if Contains(name, "t/d") then (false, true) else (true, false)
  }

  /** Which of the three merged groups a stratum table joins. */
  datatype Route = CanonicalGroup | ContaminantGroup | NonCanonicalGroup

  function RouteOf(name: string): Route {
    if Contains(name, "canonical") then CanonicalGroup
    else if Contains(name, "contam") then ContaminantGroup
    else NonCanonicalGroup
  }

  /** No pair `a b` of adjacent characters in `s`. */
  predicate NoPair(s: string, a: char, b: char) {
    forall i :: 0 <= i < |s| - 1 ==> !(s[i] == a && s[i + 1] == b)
  }

  /** A pattern whose first two characters never stand side by side in `s`
      does not occur in `s`. */
  lemma NoPairNotContains(s: string, pat: string)
    requires |pat| >= 2 && NoPair(s, pat[0], pat[1])
    ensures !Contains(s, pat)
  {
    forall i | 0 <= i <= |s| - |pat| ensures !MatchAt(pat, s, i) {
      assert !(s[i] == pat[0] && s[i + 1] == pat[1]);
    }
  }

  /** Which of the eight table names contain 'canonical'. */
  lemma {:induction false} CanonicalNames(k: nat)
    requires k < |AllNames|
    ensures Contains(AllNames[k], "canonical") <==> k == 0 || k == 2
  {
    if k == 0 || k == 2 {
      assert MatchAt("canonical", AllNames[k], 0);
    } else {
      NoPairNotContains(AllNames[k], "canonical");
    }
  }

  /** Which of the eight table names contain 'contam'. */
  lemma {:induction false} ContamNames(k: nat)
    requires k < |AllNames|
    ensures Contains(AllNames[k], "contam") <==> k == 1 || k == 3
  {
    if k == 1 || k == 3 {
      assert MatchAt("contam", AllNames[k], 0);
    } else {
      NoPairNotContains(AllNames[k], "contam");
    }
  }

  /** Which of the eight table names contain 't/d'. */
  lemma {:induction false} TdNames(k: nat)
    requires k < |AllNames|
    ensures Contains(AllNames[k], "t/d") <==> k < 2
  {
    if k == 0 {
      assert MatchAt("t/d", AllNames[k], 11);
    } else if k == 1 {
      assert MatchAt("t/d", AllNames[k], 8);
    } else {
      NoPairNotContains(AllNames[k], "t/d");
    }
  }


  /** The labels the eight tables receive. */
  const Labels: seq<string> := [
    "canonical", "contaminant", "canonical", "contaminant",
    "spliced", "multi-mapped", "cryptic", "unmapped"
  ]

  /** Every table gets one of the six strata of the database (never
      'error'); exactly the two target-decoy tables are database-search
      discoverable and not PISCES discoverable; and the group a table joins
      agrees with its label: canonical tables are labelled 'canonical',
      contaminant tables 'contaminant', and the rest keep their own name. */
  lemma {:induction false} StrataOfNames(k: nat)
    requires k < |AllNames|
    ensures StratumLabel(AllNames[k]) == Labels[k] != "error"
    ensures Discoverability(AllNames[k]).1 <==> k < 2
    ensures Discoverability(AllNames[k]).0 != Discoverability(AllNames[k]).1
    ensures RouteOf(AllNames[k]) == CanonicalGroup ==> Labels[k] == "canonical"
    ensures RouteOf(AllNames[k]) == ContaminantGroup ==> Labels[k] == "contaminant"
    ensures RouteOf(AllNames[k]) == NonCanonicalGroup ==> Labels[k] == AllNames[k]
  {
    CanonicalNames(k);
    ContamNames(k);
    TdNames(k);
  }

  // ---------------------------------------------------------------------
  // Details files
  // ---------------------------------------------------------------------

  /** Where the extra columns of a stratum come from. */
  datatype DetailsSource =
    | DetailsFile(stem: string)                    // details/<stem>.csv, first row per peptide
    | MergedDetails(first: string, second: string) // outer merge of two details files
    | TdProteinCounts(code: string)                // proteins renamed <code>_Proteins and counted
    | NoDetails

  /** The dispatch on the table name; an unknown name is a ValueError. */
  function DetailsOf(name: string): Result<DetailsSource> {
    if name in ["cryptic", "spliced"] then Ok(DetailsFile(name))
    else if name == "multi-mapped" then Ok(MergedDetails("spliced", "cryptic"))
    else if name == "canonical (pisces)" then Ok(DetailsFile("canonical"))
    else if name in ["canonical (t/d)", "contam (t/d)"] then Ok(TdProteinCounts(Split(name, ' ')[0]))
    else if name in ["contaminant", "unmapped"] then Ok(NoDetails)
    else Err(ValueError)
  }

  /** Every one of the eight table names is recognised. */
  lemma DetailsOfNames(k: nat)
    requires k < |AllNames|
    ensures DetailsOf(AllNames[k]).Ok?
  {
  }

  /** Only the eight table names are recognised: any other name is a
      ValueError. */
  lemma DetailsRecognised(name: string)
    requires name !in AllNames
    ensures DetailsOf(name) == Err(ValueError)
  {
  }

  /** The code of the canonical target-decoy table is the word before the
      space. */
  lemma CanonicalCode(name: string)
    requires name == "canonical (t/d)"
    ensures Split(name, ' ')[0] == "canonical"
  {
    assert name[..9] == "canonical";
    assert ' ' !in name[..9];
    assert name[9] == ' ';
    SplitAt(name, ' ', 9);
  }

  /** The code of the contaminant target-decoy table. */
  lemma ContamCode(name: string)
    requires name == "contam (t/d)"
    ensures Split(name, ' ')[0] == "contam"
  {
    assert name[..6] == "contam";
    assert ' ' !in name[..6];
    assert name[6] == ' ';
    SplitAt(name, ' ', 6);
  }

  /** The canonical target-decoy table names its protein columns
      canonical_Proteins and canonical_nProteins. */
  lemma CanonicalTdCode(name: string)
    requires name == "canonical (t/d)"
    ensures DetailsOf(name) == Ok(TdProteinCounts("canonical"))
  {
    assert DetailsOf(name).Ok? && DetailsOf(name).value.TdProteinCounts?;
    CanonicalCode(name);
  }

  /** The contaminant target-decoy table names them contam_Proteins and
      contam_nProteins, which are not database columns. */
  lemma ContamTdCode(name: string)
    requires name == "contam (t/d)"
    ensures DetailsOf(name) == Ok(TdProteinCounts("contam"))
  {
    assert DetailsOf(name).Ok? && DetailsOf(name).value.TdProteinCounts?;
    ContamCode(name);
  }

  /** `len(x.split(' ')) if x else 0`: the number of pieces between single
      spaces, empty pieces included, so one more than the number of
      spaces. */
  function TdNProteins(proteins: string): (n: nat)
    ensures proteins != "" ==> n == Count(proteins, ' ') + 1
    ensures proteins == "" ==> n == 0
  {
    if proteins == "" then 0
    else
      SplitCount(proteins, ' ');
      |Split(proteins, ' ')|
  }

  /** Splitting at the first separator, found at index `n`. */
  lemma SplitAt(s: string, sep: char, n: nat)
    requires n < |s| && s[n] == sep && forall k :: 0 <= k < n ==> s[k] != sep
    ensures Split(s, sep) == [s[..n]] + Split(s[n + 1..], sep)
  {
    assert IndexOf(s, sep) == n;
  }

  /** A piece without the separator splits off the front. */
  lemma SplitConcat(p: string, rest: string, sep: char)
    requires sep !in p
    ensures Split(p + [sep] + rest, sep) == [p] + Split(rest, sep)
  {
    var s := p + [sep] + rest;
    forall k | 0 <= k < |p| ensures s[k] != sep {
      assert s[k] == p[k];
    }
    SplitAt(s, sep, |p|);
    assert s[..|p|] == p;
    assert s[|p| + 1..] == rest;
  }

  lemma {:induction false} SplitCount(s: string, sep: char)
    ensures |Split(s, sep)| == Count(s, sep) + 1
    decreases |s|
  {
    var n := IndexOf(s, sep);
    if n < |s| {
      SplitAt(s, sep, n);
      SplitCount(s[n + 1..], sep);
      CountFromFirst(s, sep, n);
    }
  }

  /** The separator at `n`, the first one, is counted once before the
      rest. */
  lemma {:induction false} CountFromFirst(s: string, sep: char, n: nat)
    requires n < |s| && s[n] == sep && forall k :: 0 <= k < n ==> s[k] != sep
    ensures Count(s, sep) == 1 + Count(s[n + 1..], sep)
  {
    if n > 0 {
      CountFromFirst(s[1..], sep, n - 1);
      assert s[1..][n..] == s[n + 1..];
    }
  }


  // ---------------------------------------------------------------------
  // List columns
  // ---------------------------------------------------------------------

  /** `' '.join(ts)`, with the empty list written as the empty cell. */
  function JoinList(ts: seq<string>): string {
    if ts == [] then "" else Join(ts, ' ')
  }


  /** Pieces that contain no separator split back out of their join. */
  lemma {:induction false} SplitJoin(parts: seq<string>, sep: char)
    requires |parts| >= 1
    requires forall k :: 0 <= k < |parts| ==> sep !in parts[k]
    ensures Split(Join(parts, sep), sep) == parts
    decreases |parts|
  {
    var s := Join(parts, sep);
    var p := parts[0];
    if |parts| > 1 {
      SplitConcat(p, Join(parts[1..], sep), sep);
      SplitJoin(parts[1..], sep);
      assert parts == [p] + parts[1..];
    } else {
      assert IndexOf(s, sep) == |s|;
    }
  }

  /** A string list cell: nothing for a null or empty cell, otherwise the
      non-empty pieces between spaces. */
  function ParseStrList(cell: Option<string>): (r: seq<string>)
    ensures forall k :: 0 <= k < |r| ==> r[k] != "" && ' ' !in r[k]
    ensures cell.None? ==> r == []
    ensures cell.Some? ==> r == Filter(Split(cell.value, ' '), NonEmpty())
  {
    if cell.None? then []
    else
      TokensIsFilteredSplit(cell.value);
      if cell.value == "" then
        assert Split(cell.value, ' ') == [""];
        []
      else
        var r := Tokens(cell.value);
        assert forall k :: 0 <= k < |r| ==> r[k] in r;
        r
  }

  /** Tokenising a token and a space in front of the rest. */
  lemma TokensCons(t: string, rest: string)
    requires t != "" && ' ' !in t
    ensures Tokens(t + " " + rest) == [t] + Tokens(rest)
  {
    var s := t + " " + rest;
    assert s[0] == t[0] && s[|t|] == ' ';
    assert IndexOf(s, ' ') == |t| by {
      forall k | 0 <= k < |t| ensures s[k] != ' ' {
        assert s[k] == t[k];
      }
    }
    assert s[..|t|] == t;
    assert s[|t|..] == " " + rest;
    assert (" " + rest)[1..] == rest;
  }

  /** Joining tokens with single spaces and tokenising gives the tokens back. */
  lemma {:induction false} TokensJoin(ts: seq<string>)
    requires forall k :: 0 <= k < |ts| ==> ts[k] != "" && ' ' !in ts[k]
    ensures Tokens(JoinList(ts)) == ts
    decreases |ts|
  {
    if |ts| == 1 {
      var t := ts[0];
      assert t[0] != ' ' by { assert t[0] in t; }
      assert IndexOf(t, ' ') == |t|;
      assert t[..|t|] == t && t[|t|..] == [];
      assert Tokens(t) == [t[..|t|]] + Tokens(t[|t|..]);
      assert JoinList(ts) == t;
    } else if |ts| > 1 {
      TokensJoin(ts[1..]);
      assert Join(ts, ' ') == ts[0] + " " + Join(ts[1..], ' ');
      TokensCons(ts[0], Join(ts[1..], ' '));
      assert ts == [ts[0]] + ts[1..];
    }
  }

  /** Space-separated tokens parse back to themselves: the list columns
      written by `' '.join` round-trip. */
  lemma ParseStrListJoin(ts: seq<string>)
    requires forall k :: 0 <= k < |ts| ==> ts[k] != "" && ' ' !in ts[k]
    ensures ParseStrList(Some(JoinList(ts))) == ts
  {
    TokensJoin(ts);
  }

  predicate IsDigit(c: char) {
    '0' <= c <= '9'
  }

  predicate AllDigits(s: string) {
    forall k :: 0 <= k < |s| ==> IsDigit(s[k])
  }

  /** The value of a decimal numeral, read from the right. */
  function DigitsValue(s: string): nat
    requires AllDigits(s)
  {
    if s == [] then 0
    else DigitsValue(s[..|s| - 1]) * 10 + (s[|s| - 1] as int - '0' as int)
  }

  /** `int(a)` on one piece: an optional sign followed by at least one
      decimal digit; anything else, the empty piece included, is a
      ValueError. */
  function ParseInt(s: string): Result<int> {
    if |s| >= 2 && (s[0] == '-' || s[0] == '+') && AllDigits(s[1..]) then
      Ok(if s[0] == '-' then -(DigitsValue(s[1..]) as int) else DigitsValue(s[1..]))
    else if s != [] && AllDigits(s) then Ok(DigitsValue(s))
    else Err(ValueError)
  }

  /** `str(n)` for a natural number. */
  function NatString(n: nat): (s: string)
    ensures s != [] && AllDigits(s)
  {
    if n < 10 then [('0' as int + n) as char]
    else NatString(n / 10) + [('0' as int + n % 10) as char]
  }

  /** `str(n)`. */
  function IntString(n: int): (s: string)
    ensures s != [] && ' ' !in s
  {
    var s := if n < 0 then "-" + NatString(-n) else NatString(n);
    assert forall k :: 0 <= k < |s| ==> s[k] == '-' || IsDigit(s[k]);
    s
  }

  lemma {:induction false} NatStringValue(n: nat)
    ensures DigitsValue(NatString(n)) == n
  {
    if n >= 10 {
      NatStringValue(n / 10);
      var s := NatString(n);
      assert s[..|s| - 1] == NatString(n / 10);
    }
  }

  /** `int(str(n)) == n`. */
  lemma ParseIntString(n: int)
    ensures ParseInt(IntString(n)) == Ok(n)
  {
    if n < 0 {
      NatStringValue(-n);
      assert IntString(n)[1..] == NatString(-n);
    } else {
      NatStringValue(n);
    }
  }

  /** `[int(a) for a in pieces]`: the first piece that is not a numeral
      raises. */
  function ParseInts(pieces: seq<string>): (r: Result<seq<int>>)
    ensures r.Ok? <==> forall k :: 0 <= k < |pieces| ==> ParseInt(pieces[k]).Ok?
    ensures r.Ok? ==> |r.value| == |pieces| && forall k :: 0 <= k < |pieces| ==> ParseInt(pieces[k]) == Ok(r.value[k])
    decreases |pieces|
  {
    if pieces == [] then Ok([])
    else
      match ParseInt(pieces[0])
      case Err(e) => Err(e)
      case Ok(v) =>
        match ParseInts(pieces[1..])
        case Err(e) =>
          assert exists k :: 0 <= k < |pieces[1..]| && ParseInt(pieces[1..][k]).Err?;
          Err(e)
        case Ok(vs) =>
          assert forall k :: 1 <= k < |pieces| ==> pieces[k] == pieces[1..][k - 1];
          Ok([v] + vs)
  }

  /** An integer list cell: nothing for a null or empty cell, otherwise
      every piece between single spaces must be a numeral. */
  function ParseIntList(cell: Option<string>): Result<seq<int>> {
    if cell.None? || cell.value == "" then Ok([])
    else ParseInts(Split(cell.value, ' '))
  }

  /** `' '.join(str(v) for v in vs)`. */
  function JoinInts(vs: seq<int>): string {
    JoinList(seq(|vs|, k requires 0 <= k < |vs| => IntString(vs[k])))
  }

  /** Integer lists written with single spaces parse back to themselves. */
  lemma ParseIntListJoin(vs: seq<int>)
    ensures ParseIntList(Some(JoinInts(vs))) == Ok(vs)
  {
    if vs != [] {
      var parts := seq(|vs|, k requires 0 <= k < |vs| => IntString(vs[k]));
      SplitJoin(parts, ' ');
      forall k | 0 <= k < |vs| ensures ParseInt(parts[k]) == Ok(vs[k]) {
        ParseIntString(vs[k]);
      }
      assert |Join(parts, ' ')| >= 1;
      var r := ParseInts(parts);
      assert r.Ok? && r.value == vs;
    }
  }

  /** A trailing space leaves an empty last piece, which `int('')`
      rejects. */
  lemma ParseIntListTrailingSpace(s: string)
    ensures ParseIntList(Some(s + " ")).Err?
  {
    SplitLastEmpty(s, ' ');
  }

  lemma {:induction false} SplitLastEmpty(s: string, sep: char)
    ensures Split(s + [sep], sep)[|Split(s + [sep], sep)| - 1] == ""
    decreases |s|
  {
    var n := IndexOf(s, sep);
    if n == |s| {
      SplitNoSep(s, sep);
    } else {
      SplitFirstSep(s, sep, n);
      SplitLastEmpty(s[n + 1..], sep);
      var r := Split(s[n + 1..] + [sep], sep);
      assert ([s[..n]] + r)[|r|] == r[|r| - 1];
    }
  }

  /** A string without the separator, followed by it, splits into itself
      and the empty string. */
  lemma SplitNoSep(s: string, sep: char)
    requires sep !in s
    ensures Split(s + [sep], sep) == [s, ""]
  {
    SplitConcat(s, [], sep);
    assert s + [sep] + [] == s + [sep];
    assert IndexOf([], sep) == 0;
  }

  /** A trailing separator stays with the rest after the first piece. */
  lemma SplitFirstSep(s: string, sep: char, n: nat)
    requires n == IndexOf(s, sep) < |s|
    ensures Split(s + [sep], sep) == [s[..n]] + Split(s[n + 1..] + [sep], sep)
  {
    assert s + [sep] == s[..n] + [sep] + (s[n + 1..] + [sep]) by {
      assert s == s[..n] + [sep] + s[n + 1..];
    }
    assert sep !in s[..n] by {
      forall k | 0 <= k < n ensures s[..n][k] != sep { }
    }
    SplitConcat(s[..n], s[n + 1..] + [sep], sep);
  }



  // ---------------------------------------------------------------------
  // The database columns
  // ---------------------------------------------------------------------

  /** The mapping columns of the database. */
  datatype Column =
    | CanonicalNProteins | CanonicalProteins
    | NSplicedProteins | Sr1 | InterveningSeqLengths
    | SplicedProteins | Sr1Index | Sr2Index | IsForward
    | NCrypticProteins | FiveUtrProteins | TremblProteins
    | IntergenicProteins | CdsFrameshiftProteins | ThreeUtrProteins
    | FusionProteins | MutationProteins
    | LncRnaProteins | IntronicProteins | FiveUtrNProteins
    | TremblNProteins | IntergenicNProteins | CdsFrameshiftNProteins
    | ThreeUtrNProteins | LncRnaNProteins | IntronicNProteins
    | FusionNProteins | MutationNProteins

  /** The `i`-th column of the table. */
  function ColumnAt(i: nat): Column
    requires i < 28
  {
    if i == 0 then CanonicalNProteins
    else if i == 1 then CanonicalProteins
    else if i == 2 then NSplicedProteins
    else if i == 3 then Sr1
    else if i == 4 then InterveningSeqLengths
    else if i == 5 then SplicedProteins
    else if i == 6 then Sr1Index
    else if i == 7 then Sr2Index
    else if i == 8 then IsForward
    else if i == 9 then NCrypticProteins
    else if i == 10 then FiveUtrProteins
    else if i == 11 then TremblProteins
    else if i == 12 then IntergenicProteins
    else if i == 13 then CdsFrameshiftProteins
    else if i == 14 then ThreeUtrProteins
    else if i == 15 then FusionProteins
    else if i == 16 then MutationProteins
    else if i == 17 then LncRnaProteins
    else if i == 18 then IntronicProteins
    else if i == 19 then FiveUtrNProteins
    else if i == 20 then TremblNProteins
    else if i == 21 then IntergenicNProteins
    else if i == 22 then CdsFrameshiftNProteins
    else if i == 23 then ThreeUtrNProteins
    else if i == 24 then LncRnaNProteins
    else if i == 25 then IntronicNProteins
    else if i == 26 then FusionNProteins
    else MutationNProteins
  }

  /** The columns in the order the parsing loop visits them. */
  const Columns: seq<Column> := seq(28, i requires 0 <= i < 28 => ColumnAt(i))

  /** The position of a column in the table. */
  function ColumnIndex(c: Column): nat {
    match c
    case CanonicalNProteins => 0
    case CanonicalProteins => 1
    case NSplicedProteins => 2
    case Sr1 => 3
    case InterveningSeqLengths => 4
    case SplicedProteins => 5
    case Sr1Index => 6
    case Sr2Index => 7
    case IsForward => 8
    case NCrypticProteins => 9
    case FiveUtrProteins => 10
    case TremblProteins => 11
    case IntergenicProteins => 12
    case CdsFrameshiftProteins => 13
    case ThreeUtrProteins => 14
    case FusionProteins => 15
    case MutationProteins => 16
    case LncRnaProteins => 17
    case IntronicProteins => 18
    case FiveUtrNProteins => 19
    case TremblNProteins => 20
    case IntergenicNProteins => 21
    case CdsFrameshiftNProteins => 22
    case ThreeUtrNProteins => 23
    case LncRnaNProteins => 24
    case IntronicNProteins => 25
    case FusionNProteins => 26
    case MutationNProteins => 27
  }

  /** The count columns: those whose name contains 'nProteins', and
      nCrypticProteins and nSplicedProteins. */
  predicate IsCount(c: Column) {
    c in {CanonicalNProteins, NSplicedProteins, NCrypticProteins,
          FiveUtrNProteins, TremblNProteins, IntergenicNProteins,
          CdsFrameshiftNProteins, ThreeUtrNProteins, LncRnaNProteins,
          IntronicNProteins, FusionNProteins, MutationNProteins}
  }

  /** The list columns holding integers. */
  predicate IsIntList(c: Column) {
    c in {InterveningSeqLengths, Sr1Index, Sr2Index, IsForward}
  }

  /** Each count column with the list column it counts, in the order they
      are recomputed. */
  function PairAt(j: nat): (Column, Column)
    requires j < 11
  {
    if j == 0 then (CanonicalNProteins, CanonicalProteins)
    else if j == 1 then (NSplicedProteins, SplicedProteins)
    else if j == 2 then (FiveUtrNProteins, FiveUtrProteins)
    else if j == 3 then (ThreeUtrNProteins, ThreeUtrProteins)
    else if j == 4 then (IntergenicNProteins, IntergenicProteins)
    else if j == 5 then (IntronicNProteins, IntronicProteins)
    else if j == 6 then (LncRnaNProteins, LncRnaProteins)
    else if j == 7 then (FusionNProteins, FusionProteins)
    else if j == 8 then (MutationNProteins, MutationProteins)
    else if j == 9 then (CdsFrameshiftNProteins, CdsFrameshiftProteins)
    else (TremblNProteins, TremblProteins)
  }

  const CountPairs: seq<(Column, Column)> := seq(11, j requires 0 <= j < 11 => PairAt(j))

  /** The list column a count column is recomputed from, if any. */
  function CountedList(c: Column): Option<Column> {
    match c
    case CanonicalNProteins => Some(CanonicalProteins)
    case NSplicedProteins => Some(SplicedProteins)
    case FiveUtrNProteins => Some(FiveUtrProteins)
    case ThreeUtrNProteins => Some(ThreeUtrProteins)
    case IntergenicNProteins => Some(IntergenicProteins)
    case IntronicNProteins => Some(IntronicProteins)
    case LncRnaNProteins => Some(LncRnaProteins)
    case FusionNProteins => Some(FusionProteins)
    case MutationNProteins => Some(MutationProteins)
    case CdsFrameshiftNProteins => Some(CdsFrameshiftProteins)
    case TremblNProteins => Some(TremblProteins)
    case _ => None
  }

  /** The pairs are the count columns with their lists: every count column
      but nCrypticProteins is recomputed, and each from a string list
      column that is parsed and is not itself recomputed. */
  lemma {:induction false} CountPairsMeaning(j: nat)
    requires j < |CountPairs|
    ensures CountedList(CountPairs[j].0) == Some(CountPairs[j].1)
    ensures IsCount(CountPairs[j].0)
    ensures !IsCount(CountPairs[j].1) && !IsIntList(CountPairs[j].1) && CountedList(CountPairs[j].1).None?
    ensures forall i :: 0 <= i < |CountPairs| && i != j ==> CountPairs[i].0 != CountPairs[j].0
    ensures forall i :: 0 <= i < |CountPairs| ==> CountPairs[i].0 != CountPairs[j].1
  {
  }

  /** The position of a count column among the pairs (11 for a column
      that is not recomputed). */
  function PairIndex(c: Column): nat {
    match c
    case CanonicalNProteins => 0
    case NSplicedProteins => 1
    case FiveUtrNProteins => 2
    case ThreeUtrNProteins => 3
    case IntergenicNProteins => 4
    case IntronicNProteins => 5
    case LncRnaNProteins => 6
    case FusionNProteins => 7
    case MutationNProteins => 8
    case CdsFrameshiftNProteins => 9
    case TremblNProteins => 10
    case _ => 11
  }

  /** Every recomputed count column has its pair, at its index, and only
      those columns have one. */
  lemma PairIndexMeaning(c: Column)
    ensures CountedList(c).Some? <==> PairIndex(c) < |CountPairs|
    ensures CountedList(c).Some? ==> CountPairs[PairIndex(c)] == (c, CountedList(c).value)
  {
  }

  lemma ColumnAtIndex()
    ensures forall c: Column :: ColumnIndex(c) < |Columns| && Columns[ColumnIndex(c)] == c
  {
  }

  lemma ColumnIndexAt()
    ensures forall i :: 0 <= i < |Columns| ==> ColumnIndex(Columns[i]) == i
  {
  }

  /** The parsing loop visits every column, and each once. */
  lemma ColumnsComplete()
    ensures forall c: Column :: c in Columns
    ensures Distinct(Columns)
  {
    ColumnAtIndex();
    ColumnIndexAt();
    forall c: Column ensures c in Columns {
      assert Columns[ColumnIndex(c)] == c;
    }
  }


  /** A cell of the table. Before parsing, list columns hold text (or
      null) and count columns numbers; parsing turns text into lists. */
  datatype Cell = Text(text: Option<string>) | Number(n: int) | Texts(items: seq<string>) | Ints(values: seq<int>)

  /** One peptide of the database. */
  datatype DbRow = DbRow(
    peptide: string, stratum: string,
    piscesDiscoverable: bool, tdDiscoverable: bool,
    nDatasets: int, datasets: seq<string>, cellLines: seq<string>, alleles: seq<string>,
    maxProbability: real, cells: map<Column, Cell>)

  /** Every column is present: count columns as numbers, the others as
      text. */
  predicate RawRow(row: DbRow) {
    forall c: Column :: c in row.cells && (if IsCount(c) then row.cells[c].Number? else row.cells[c].Text?)
  }

  /** One list cell after `map_elements` and `fill_null([])`. */
  function ParsedCell(c: Column, cell: Cell): Result<Cell>
    requires cell.Text?
  {
    if IsIntList(c) then
      match ParseIntList(cell.text)
      case Ok(vs) => Ok(Ints(vs))
      case Err(e) => Err(e)
    else Ok(Texts(ParseStrList(cell.text)))
  }

  /** Whether every integer list cell of a row is well formed. */
  predicate IntCellsParse(row: DbRow)
    requires RawRow(row)
  {
    forall c: Column :: IsIntList(c) ==> ParseIntList(row.cells[c].text).Ok?
  }

  /** The value of column `c` once the row is complete: counts are the
      lengths of their parsed lists, other count columns are kept, and
      list columns are parsed. */
  function FinalCell(c: Column, row: DbRow): Cell
    requires RawRow(row) && IntCellsParse(row)
  {
    match CountedList(c)
    case Some(l) => Number(|ParseStrList(row.cells[l].text)|)
    case None => if IsCount(c) then row.cells[c] else ParsedCell(c, row.cells[c]).value
  }

  function FinalRow(row: DbRow): (r: DbRow)
    requires RawRow(row) && IntCellsParse(row)
  {
    row.(cells := map c: Column | c in row.cells :: FinalCell(c, row))
  }

  /** In a complete row every recomputed count is the length of its list,
      and no list holds an empty or space-containing entry. */
  lemma CountsMatchLists(row: DbRow, j: nat)
    requires RawRow(row) && IntCellsParse(row) && j < |CountPairs|
    ensures var (count, list) := CountPairs[j];
      var f := FinalRow(row).cells;
      count in f && list in f && f[list].Texts? &&
      f[count] == Number(|f[list].items|) &&
      forall k :: 0 <= k < |f[list].items| ==> f[list].items[k] != "" && ' ' !in f[list].items[k]
  {
    CountPairsMeaning(j);
  }

  /** Integer list columns parse to their values. */
  lemma IntListsParsed(row: DbRow, c: Column)
    requires RawRow(row) && IntCellsParse(row) && IsIntList(c)
    ensures c in FinalRow(row).cells && FinalRow(row).cells[c] == Ints(ParseIntList(row.cells[c].text).value)
  {
  }

  /** The `with_columns` of one list column over the whole table: every
      element is parsed, and one malformed integer list fails it. */
  function ParseColumn(rows: seq<DbRow>, c: Column): (r: Result<seq<DbRow>>)
    requires forall k :: 0 <= k < |rows| ==> c in rows[k].cells && rows[k].cells[c].Text?
    ensures r.Ok? <==> forall k :: 0 <= k < |rows| ==> ParsedCell(c, rows[k].cells[c]).Ok?
    ensures r.Ok? ==> (|r.value| == |rows| &&
      forall k :: 0 <= k < |rows| ==> r.value[k] == rows[k].(cells := rows[k].cells[c := ParsedCell(c, rows[k].cells[c]).value]))
  {
    if forall k :: 0 <= k < |rows| ==> ParsedCell(c, rows[k].cells[c]).Ok? then
      Ok(seq(|rows|, k requires 0 <= k < |rows| =>
        rows[k].(cells := rows[k].cells[c := ParsedCell(c, rows[k].cells[c]).value])))
    else Err(ValueError)
  }

  /** The `with_columns` that recomputes one count from its list column. */
  function CountColumn(rows: seq<DbRow>, count: Column, list: Column): (r: seq<DbRow>)
    requires forall k :: 0 <= k < |rows| ==> list in rows[k].cells && rows[k].cells[list].Texts?
    ensures |r| == |rows|
    ensures forall k :: 0 <= k < |rows| ==>
      r[k] == rows[k].(cells := rows[k].cells[count := Number(|rows[k].cells[list].items|)])
  {
    seq(|rows|, k requires 0 <= k < |rows| =>
      rows[k].(cells := rows[k].cells[count := Number(|rows[k].cells[list].items|)]))
  }

  /** The table part-way through the parsing loop: the columns in `done`
      that are not counts are parsed, every other cell is as it was. */
  ghost predicate Parsing(raw: DbRow, row: DbRow, done: seq<Column>)
    requires RawRow(raw)
  {
    row == raw.(cells := row.cells) &&
    forall c: Column :: c in row.cells &&
      if c in done && !IsCount(c) then ParsedCell(c, raw.cells[c]) == Ok(row.cells[c])
      else row.cells[c] == raw.cells[c]
  }

  /** A column the parsing loop has not reached is as it was. */
  lemma CellUnparsed(raw: DbRow, row: DbRow, done: seq<Column>, c: Column)
    requires RawRow(raw) && Parsing(raw, row, done) && c !in done
    ensures c in row.cells && row.cells[c] == raw.cells[c]
  {
  }

  /** Parsing one more column extends the parsed prefix. */
  lemma ParseStep(raw: DbRow, row: DbRow, done: seq<Column>, c: Column)
    requires RawRow(raw) && Parsing(raw, row, done) && c !in done && !IsCount(c)
    requires ParsedCell(c, raw.cells[c]).Ok?
    ensures Parsing(raw, row.(cells := row.cells[c := ParsedCell(c, raw.cells[c]).value]), done + [c])
  {
  }

  /** One pass of the parsing loop over the whole table: it fails only
      on a row with a malformed integer list, and otherwise extends the
      parsed prefix of every row. */
  lemma ParseColumnStep(rows: seq<DbRow>, table: seq<DbRow>, done: seq<Column>, c: Column)
    requires |table| == |rows| && c !in done && !IsCount(c)
    requires forall k :: 0 <= k < |rows| ==> RawRow(rows[k]) && Parsing(rows[k], table[k], done)
    ensures forall k :: 0 <= k < |table| ==> c in table[k].cells && table[k].cells[c].Text?
    ensures ParseColumn(table, c).Err? ==> exists k :: 0 <= k < |rows| && !IntCellsParse(rows[k])
    ensures ParseColumn(table, c).Ok? ==> forall k :: 0 <= k < |rows| ==> Parsing(rows[k], ParseColumn(table, c).value[k], done + [c])
  {
    forall k | 0 <= k < |rows| ensures c in table[k].cells && table[k].cells[c] == rows[k].cells[c] {
      CellUnparsed(rows[k], table[k], done, c);
    }
    if ParseColumn(table, c).Err? {
      var k :| 0 <= k < |table| && ParsedCell(c, table[k].cells[c]).Err?;
      assert !IntCellsParse(rows[k]);
    } else {
      forall k | 0 <= k < |rows| ensures Parsing(rows[k], ParseColumn(table, c).value[k], done + [c]) {
        ParseStep(rows[k], table[k], done, c);
      }
    }
  }

  /** A count column is skipped by the parsing loop. */
  lemma CountStays(raw: DbRow, row: DbRow, done: seq<Column>, c: Column)
    requires RawRow(raw) && Parsing(raw, row, done) && IsCount(c)
    ensures Parsing(raw, row, done + [c])
  {
  }

  /** Once every column is parsed, every integer list was well formed. */
  lemma ParsedIntsParse(raw: DbRow, row: DbRow)
    requires RawRow(raw) && Parsing(raw, row, Columns)
    ensures IntCellsParse(raw)
  {
    ColumnsComplete();
    forall c: Column | IsIntList(c) ensures ParseIntList(raw.cells[c].text).Ok? {
      assert c in Columns;
    }
  }

  /** A cell part-way through the counting loop: the count columns of the
      first `j` pairs hold the lengths of their lists, every other cell is
      as parsing left it. */
  function CountedCell(cells: map<Column, Cell>, c: Column, j: nat): Cell
    requires c in cells
  {
    match CountedList(c)
    case Some(l) =>
      if PairIndex(c) < j && l in cells && cells[l].Texts? then Number(|cells[l].items|) else cells[c]
    case None => cells[c]
  }

  ghost predicate Counting(parsed: DbRow, row: DbRow, j: nat) {
    row == parsed.(cells := map c: Column | c in parsed.cells :: CountedCell(parsed.cells, c, j))
  }

  /** Before the counting loop nothing is counted. */
  lemma CountingStart(parsed: DbRow)
    ensures Counting(parsed, parsed, 0)
  {
    var m := map c: Column | c in parsed.cells :: CountedCell(parsed.cells, c, 0);
    assert m == parsed.cells;
  }

  /** The list a pair counts is parsed and not overwritten. */
  lemma ListBeforeCount(raw: DbRow, parsed: DbRow, row: DbRow, j: nat)
    requires RawRow(raw) && j < |CountPairs|
    requires Parsing(raw, parsed, Columns) && Counting(parsed, row, j)
    ensures CountPairs[j].1 in parsed.cells && CountPairs[j].1 in row.cells && !IsCount(CountPairs[j].1)
    ensures row.cells[CountPairs[j].1] == parsed.cells[CountPairs[j].1] == Texts(ParseStrList(raw.cells[CountPairs[j].1].text))
  {
    CountPairsMeaning(j);
    ColumnsComplete();
    assert CountPairs[j].1 in Columns;
  }

  /** Recomputing the count of pair `j` extends the counted prefix. */
  lemma CountStep(parsed: DbRow, row: DbRow, j: nat)
    requires j < |CountPairs| && Counting(parsed, row, j)
    requires CountPairs[j].0 in parsed.cells && CountPairs[j].1 in parsed.cells && parsed.cells[CountPairs[j].1].Texts?
    ensures CountPairs[j].1 in row.cells && row.cells[CountPairs[j].1].Texts?
    ensures Counting(parsed, row.(cells := row.cells[CountPairs[j].0 := Number(|row.cells[CountPairs[j].1].items|)]), j + 1)
  {
    var (count, list) := CountPairs[j];
    CountPairsMeaning(j);
    PairIndexMeaning(count);
    var m := map c: Column | c in parsed.cells :: CountedCell(parsed.cells, c, j + 1);
    forall c | c in parsed.cells && c != count ensures m[c] == row.cells[c] {
      PairIndexMeaning(c);
    }
    assert m == row.cells[count := Number(|row.cells[list].items|)];
  }

  /** After both loops a recomputed count is the length of its list. */
  lemma CountCellAfterPasses(raw: DbRow, parsed: DbRow, row: DbRow, c: Column)
    requires RawRow(raw) && IntCellsParse(raw) && CountedList(c).Some?
    requires Parsing(raw, parsed, Columns) && Counting(parsed, row, |CountPairs|)
    ensures c in row.cells && row.cells[c] == FinalCell(c, raw)
  {
    ColumnsComplete();
    PairIndexMeaning(c);
    CountPairsMeaning(PairIndex(c));
    assert CountedList(c).value in Columns;
  }

  /** After both loops any other cell is as parsing left it. */
  lemma PlainCellAfterPasses(raw: DbRow, parsed: DbRow, row: DbRow, c: Column)
    requires RawRow(raw) && IntCellsParse(raw) && CountedList(c).None?
    requires Parsing(raw, parsed, Columns) && Counting(parsed, row, |CountPairs|)
    ensures c in row.cells && row.cells[c] == FinalCell(c, raw)
  {
    ColumnsComplete();
    assert c in Columns;
  }

  /** After both loops a row is the complete row. */
  lemma FinalRowFromPasses(raw: DbRow, parsed: DbRow, row: DbRow)
    requires RawRow(raw) && IntCellsParse(raw)
    requires Parsing(raw, parsed, Columns) && Counting(parsed, row, |CountPairs|)
    ensures row == FinalRow(raw)
  {
    forall c: Column ensures c in row.cells && row.cells[c] == FinalRow(raw).cells[c] {
      if CountedList(c).Some? {
        CountCellAfterPasses(raw, parsed, row, c);
      } else {
        PlainCellAfterPasses(raw, parsed, row, c);
      }
    }
    assert row.cells == FinalRow(raw).cells;
  }

  /** The two passes of the database build over the list columns: each
      list column in turn is parsed over all rows, and then each count
      column is recomputed from its list. The build fails exactly when
      some integer list is malformed, and otherwise every row is its
      complete row. */
  method FinaliseColumns(rows: seq<DbRow>) returns (r: Result<seq<DbRow>>)
    requires forall k :: 0 <= k < |rows| ==> RawRow(rows[k])
    ensures r.Ok? <==> forall k :: 0 <= k < |rows| ==> IntCellsParse(rows[k])
    ensures r.Ok? ==> |r.value| == |rows| && forall k :: 0 <= k < |rows| ==> r.value[k] == FinalRow(rows[k])
  {
    var parsed := ParseListColumns(rows);
    if parsed.Err? {
      return parsed;
    }
    var table := CountListColumns(parsed.value, rows);
    forall k | 0 <= k < |rows| ensures table[k] == FinalRow(rows[k]) {
      FinalRowFromPasses(rows[k], parsed.value[k], table[k]);
    }
    r := Ok(table);
  }

  /** The first pass: every list column that is not a count is parsed over
      all rows, in column order; a malformed integer list stops it. */
  method ParseListColumns(rows: seq<DbRow>) returns (r: Result<seq<DbRow>>)
    requires forall k :: 0 <= k < |rows| ==> RawRow(rows[k])
    ensures r.Ok? <==> forall k :: 0 <= k < |rows| ==> IntCellsParse(rows[k])
    ensures r.Ok? ==> |r.value| == |rows| && forall k :: 0 <= k < |rows| ==> Parsing(rows[k], r.value[k], Columns)
  {
    ColumnsComplete();
    var table := rows;
    for i := 0 to |Columns|
      invariant |table| == |rows|
      invariant forall k :: 0 <= k < |rows| ==> Parsing(rows[k], table[k], Columns[..i])
    {
      var c := Columns[i];
      assert Columns[..i + 1] == Columns[..i] + [c];
      assert c !in Columns[..i];
      if !IsCount(c) {
        ParseColumnStep(rows, table, Columns[..i], c);
        var next := ParseColumn(table, c);
        if next.Err? {
          return Err(next.error);
        }
        table := next.value;
      } else {
        forall k | 0 <= k < |rows| ensures Parsing(rows[k], table[k], Columns[..i + 1]) {
          CountStays(rows[k], table[k], Columns[..i], c);
        }
      }
    }
    assert Columns[..|Columns|] == Columns;
    forall k | 0 <= k < |rows| ensures IntCellsParse(rows[k]) {
      ParsedIntsParse(rows[k], table[k]);
    }
    r := Ok(table);
  }


  /** The second pass: each count column in turn is recomputed from its
      parsed list over all rows. */
  method CountListColumns(parsed: seq<DbRow>, ghost rows: seq<DbRow>) returns (table: seq<DbRow>)
    requires |parsed| == |rows|
    requires forall k :: 0 <= k < |rows| ==> RawRow(rows[k]) && Parsing(rows[k], parsed[k], Columns)
    ensures |table| == |parsed| && forall k :: 0 <= k < |parsed| ==> Counting(parsed[k], table[k], |CountPairs|)
  {
    table := parsed;
    forall k | 0 <= k < |rows| ensures Counting(parsed[k], table[k], 0) {
      CountingStart(parsed[k]);
    }
    for j := 0 to |CountPairs|
      invariant |table| == |rows|
      invariant forall k :: 0 <= k < |rows| ==> Counting(parsed[k], table[k], j)
    {
      var (count, list) := CountPairs[j];
      ghost var before := table;
      forall k | 0 <= k < |rows|
        ensures list in table[k].cells && table[k].cells[list].Texts?
        ensures Counting(parsed[k], before[k].(cells := before[k].cells[count := Number(|before[k].cells[list].items|)]), j + 1)
      {
        ListBeforeCount(rows[k], parsed[k], table[k], j);
        assert count in parsed[k].cells;
        CountStep(parsed[k], table[k], j);
      }
      table := CountColumn(table, count, list);
    }
  }


  // ---------------------------------------------------------------------
  // Combining list columns
  // ---------------------------------------------------------------------

  /** The lists one after another. */
  function Concat<T>(lists: seq<seq<T>>): seq<T> {
    if lists == [] then [] else Concat(lists[..|lists| - 1]) + lists[|lists| - 1]
  }

  lemma {:induction false} ConcatMember<T>(lists: seq<seq<T>>, x: T)
    ensures x in Concat(lists) <==> exists i :: 0 <= i < |lists| && x in lists[i]
  {
    if lists != [] {
      var init := lists[..|lists| - 1];
      ConcatMember(init, x);
      assert forall i :: 0 <= i < |init| ==> init[i] == lists[i];
    }
  }

  /** The combined list: every element of every list, once each (the order
      of the set that Python builds is taken to be first occurrence). */
  function Union<T(==)>(lists: seq<seq<T>>): (r: seq<T>)
    ensures Distinct(r)
  {
    Dedup(Concat(lists))
  }

  /** An element is in the combined list exactly when it is in one of the
      lists. */
  lemma UnionMeaning<T>(lists: seq<seq<T>>, x: T)
    ensures x in Union(lists) <==> exists i :: 0 <= i < |lists| && x in lists[i]
  {
    ConcatMember(lists, x);
  }

  /** `_combine_lists`: extend one list with every list in turn, then keep
      each element once. */
  method CombineLists<T(==)>(lists: seq<seq<T>>) returns (r: seq<T>)
    ensures Distinct(r)
    ensures forall x :: x in r <==> exists i :: 0 <= i < |lists| && x in lists[i]
    ensures r == Union(lists)
  {
    var total: seq<T> := [];
    for i := 0 to |lists|
      invariant total == Concat(lists[..i])
    {
      assert lists[..i + 1][..i] == lists[..i];
      total := total + lists[i];
    }
    assert lists[..|lists|] == lists;
    r := Dedup(total);
    forall x ensures x in r <==> exists i :: 0 <= i < |lists| && x in lists[i] {
      UnionMeaning(lists, x);
    }
  }

  // ---------------------------------------------------------------------
  // One row per peptide
  // ---------------------------------------------------------------------

  /** The peptide column. */
  function Peptides(rows: seq<DbRow>): (ps: seq<string>)
    ensures |ps| == |rows| && forall k :: 0 <= k < |rows| ==> ps[k] == rows[k].peptide
  {
    seq(|rows|, k requires 0 <= k < |rows| => rows[k].peptide)
  }

  /** Whether a row belongs to peptide `p`. */
  function OfPeptide(p: string): DbRow -> bool {
    (r: DbRow) => r.peptide == p
  }

  /** The rows of one peptide. */
  function Copies(rows: seq<DbRow>, p: string): seq<DbRow> {
    Filter(rows, OfPeptide(p))
  }

  /** Whether a row's peptide occurs once in `rows`. */
  function Once(rows: seq<DbRow>): DbRow -> bool {
    (r: DbRow) => Count(Peptides(rows), r.peptide) == 1
  }

  /** Whether a peptide occurs more than once in `rows`. */
  function Repeated(rows: seq<DbRow>): string -> bool {
    (p: string) => Count(Peptides(rows), p) >= 2
  }

  /** `drop_duplicates(subset=['peptide'], keep=False)`: the rows whose
      peptide occurs once. */
  function SingletonRows(rows: seq<DbRow>): seq<DbRow> {
    Filter(rows, Once(rows))
  }

  /** The peptides with more than one row, each once, in order of first
      occurrence. */
  function DuplicatedPeptides(rows: seq<DbRow>): seq<string> {
    Dedup(Filter(Peptides(rows), Repeated(rows)))
  }

  /** The largest probability of some rows (0.0 for none, a case the
      aggregation never meets). */
  function MaxProbability(rows: seq<DbRow>): (m: real)
    ensures forall k :: 0 <= k < |rows| ==> rows[k].maxProbability <= m
    ensures rows != [] ==> exists k :: 0 <= k < |rows| && rows[k].maxProbability == m
  {
    if rows == [] then 0.0
    else if |rows| == 1 then rows[0].maxProbability
    else
      var m := MaxProbability(rows[1..]);
      assert forall k :: 1 <= k < |rows| ==> rows[k] == rows[1..][k - 1];
      if rows[0].maxProbability >= m then rows[0].maxProbability else m
  }

  /** The mapping cells of an aggregated row: zero counts and empty lists. */
  function EmptyCells(): map<Column, Cell> {
    map c: Column | c in (set i | 0 <= i < 28 :: ColumnAt(i)) :: if IsCount(c) then Number(0) else Text(Some(""))
  }

  /** The one row that replaces the rows of a duplicated peptide:
      'contaminant' if any copy is a contaminant and 'error' otherwise,
      discoverable if any copy is, the union of the datasets, cell lines
      and alleles, the largest probability, and empty mapping columns. */
  function Aggregate(p: string, copies: seq<DbRow>): DbRow {
    var strata := seq(|copies|, k requires 0 <= k < |copies| => copies[k].stratum);
    var datasets := Union(seq(|copies|, k requires 0 <= k < |copies| => copies[k].datasets));
    DbRow(p, if "contaminant" in strata then "contaminant" else "error",
          exists k :: 0 <= k < |copies| && copies[k].piscesDiscoverable,
          exists k :: 0 <= k < |copies| && copies[k].tdDiscoverable,
          |datasets|, datasets,
          Union(seq(|copies|, k requires 0 <= k < |copies| => copies[k].cellLines)),
          Union(seq(|copies|, k requires 0 <= k < |copies| => copies[k].alleles)),
          MaxProbability(copies), EmptyCells())
  }

  /** The table with every duplicated peptide collapsed into one row: the
      singleton rows followed by one aggregated row per duplicated
      peptide. */
  function Collapse(rows: seq<DbRow>): seq<DbRow> {
    SingletonRows(rows) + AggregatedRows(rows)
  }

  /** The aggregated rows, one per duplicated peptide. */
  function AggregatedRows(rows: seq<DbRow>): (r: seq<DbRow>)
    ensures |r| == |DuplicatedPeptides(rows)|
    ensures forall i :: 0 <= i < |r| ==>
      r[i] == Aggregate(DuplicatedPeptides(rows)[i], Copies(rows, DuplicatedPeptides(rows)[i]))
  {
    var dups := DuplicatedPeptides(rows);
    seq(|dups|, i requires 0 <= i < |dups| => Aggregate(dups[i], Copies(rows, dups[i])))
  }

  /** Two occurrences are counted twice. */
  lemma {:induction false} CountTwo<T>(s: seq<T>, i: nat, j: nat)
    requires i < j < |s| && s[i] == s[j]
    ensures Count(s, s[i]) >= 2
    decreases |s|
  {
    if i == 0 {
      assert s[1..][j - 1] == s[j];
    } else {
      assert s[1..][i - 1] == s[i] && s[1..][j - 1] == s[j];
      CountTwo(s[1..], i - 1, j - 1);
    }
  }

  /** The occurrences of a peptide, the first row and then the rest. */
  lemma CountPeptidesCons(rows: seq<DbRow>, x: string)
    requires rows != []
    ensures Count(Peptides(rows), x) == (if rows[0].peptide == x then 1 else 0) + Count(Peptides(rows[1..]), x)
  {
    assert Peptides(rows)[1..] == Peptides(rows[1..]);
  }

  /** Filtering rows never adds occurrences of a peptide. */
  lemma {:induction false} FilterPeptideCount(rows: seq<DbRow>, keep: DbRow -> bool, x: string)
    ensures Count(Peptides(Filter(rows, keep)), x) <= Count(Peptides(rows), x)
    decreases |rows|
  {
    if rows != [] {
      FilterPeptideCount(rows[1..], keep, x);
      CountPeptidesCons(rows, x);
      var f := Filter(rows, keep);
      if keep(rows[0]) {
        assert f[0] == rows[0] && f[1..] == Filter(rows[1..], keep);
        CountPeptidesCons(f, x);
      } else {
        assert f == Filter(rows[1..], keep);
      }
    }
  }

  /** The singleton rows have distinct peptides. */
  lemma SingletonsDistinct(rows: seq<DbRow>)
    ensures Distinct(Peptides(SingletonRows(rows)))
  {
    var s := SingletonRows(rows);
    forall i, j | 0 <= i < j < |s| ensures Peptides(s)[i] != Peptides(s)[j] {
      if s[i].peptide == s[j].peptide {
        CountTwo(Peptides(s), i, j);
        FilterPeptideCount(rows, Once(rows), s[i].peptide);
      }
    }
  }

  /** A peptide is aggregated exactly when it has more than one row. */
  lemma DuplicatedMeaning(rows: seq<DbRow>, p: string)
    ensures p in DuplicatedPeptides(rows) <==> Count(Peptides(rows), p) >= 2
  {
    var ps := Peptides(rows);
    var f := Filter(ps, Repeated(rows));
    if p in DuplicatedPeptides(rows) {
      var i :| 0 <= i < |DuplicatedPeptides(rows)| && DuplicatedPeptides(rows)[i] == p;
      var j :| 0 <= j < |f| && f[j] == p;
      assert Repeated(rows)(f[j]);
    }
    if Count(ps, p) >= 2 {
      var i :| 0 <= i < |ps| && ps[i] == p;
      assert Repeated(rows)(ps[i]);
      var j :| 0 <= j < |f| && f[j] == p;
    }
  }

  /** A singleton peptide is not an aggregated one. */
  lemma SingletonNotDuplicated(rows: seq<DbRow>, i: nat, j: nat)
    requires i < |SingletonRows(rows)| && j < |DuplicatedPeptides(rows)|
    ensures SingletonRows(rows)[i].peptide != DuplicatedPeptides(rows)[j]
  {
    assert Once(rows)(SingletonRows(rows)[i]);
    DuplicatedMeaning(rows, DuplicatedPeptides(rows)[j]);
  }

  /** After the collapse no peptide has two rows. */
  lemma CollapseDistinct(rows: seq<DbRow>)
    ensures Distinct(Peptides(Collapse(rows)))
  {
    var single := SingletonRows(rows);
    var dups := DuplicatedPeptides(rows);
    var c := Collapse(rows);
    SingletonsDistinct(rows);
    forall i, j | 0 <= i < j < |c| ensures c[i].peptide != c[j].peptide {
      if j < |single| {
        assert c[i] == single[i] && c[j] == single[j];
        assert Peptides(single)[i] == single[i].peptide && Peptides(single)[j] == single[j].peptide;
      } else if i >= |single| {
        assert c[i].peptide == dups[i - |single|] && c[j].peptide == dups[j - |single|];
      } else {
        assert c[i] == single[i] && c[j].peptide == dups[j - |single|];
        SingletonNotDuplicated(rows, i, j - |single|);
      }
    }
  }

  /** The copies of a peptide are its rows: as many as it has occurrences,
      each of them with that peptide and from the table. */
  lemma {:induction false} CopiesMeaning(rows: seq<DbRow>, p: string)
    ensures |Copies(rows, p)| == Count(Peptides(rows), p)
    ensures forall k :: 0 <= k < |Copies(rows, p)| ==> Copies(rows, p)[k].peptide == p && Copies(rows, p)[k] in rows
    ensures forall i :: 0 <= i < |rows| && rows[i].peptide == p ==> rows[i] in Copies(rows, p)
    decreases |rows|
  {
    var c := Copies(rows, p);
    forall k | 0 <= k < |c| ensures c[k].peptide == p {
      assert OfPeptide(p)(c[k]);
    }
    forall i | 0 <= i < |rows| && rows[i].peptide == p ensures rows[i] in c {
      assert OfPeptide(p)(rows[i]);
    }
    if rows != [] {
      CopiesMeaning(rows[1..], p);
      CountPeptidesCons(rows, p);
    }
  }

  /** A peptide that occurs once keeps its row among the singletons. */
  lemma SingletonCovered(rows: seq<DbRow>, i: nat) returns (k: nat)
    requires i < |rows| && Count(Peptides(rows), rows[i].peptide) == 1
    ensures k < |SingletonRows(rows)| && SingletonRows(rows)[k] == rows[i]
  {
    assert Once(rows)(rows[i]);
    k :| 0 <= k < |SingletonRows(rows)| && SingletonRows(rows)[k] == rows[i];
  }

  /** A peptide that occurs more than once has an aggregated row. */
  lemma DuplicateCovered(rows: seq<DbRow>, p: string) returns (k: nat)
    requires Count(Peptides(rows), p) >= 2
    ensures k < |AggregatedRows(rows)| && AggregatedRows(rows)[k].peptide == p
  {
    DuplicatedMeaning(rows, p);
    k :| 0 <= k < |DuplicatedPeptides(rows)| && DuplicatedPeptides(rows)[k] == p;
  }

  /** Every peptide of the table keeps a row after the collapse: returns
      its position. */
  lemma CollapseCovers(rows: seq<DbRow>, i: nat) returns (k: nat)
    requires i < |rows|
    ensures k < |Collapse(rows)| && Collapse(rows)[k].peptide == rows[i].peptide
  {
    var p := rows[i].peptide;
    var single := SingletonRows(rows);
    var agg := AggregatedRows(rows);
    assert Collapse(rows) == single + agg;
    assert Peptides(rows)[i] == p;
    if Count(Peptides(rows), p) == 1 {
      k := SingletonCovered(rows, i);
      assert (single + agg)[k] == single[k];
    } else {
      var j := DuplicateCovered(rows, p);
      k := |single| + j;
      assert (single + agg)[k] == agg[j];
    }
  }


  /** A row whose peptide occurs once survives the collapse unchanged. */
  lemma CollapseKeepsSingletons(rows: seq<DbRow>, i: nat)
    requires i < |rows| && Count(Peptides(rows), rows[i].peptide) == 1
    ensures rows[i] in Collapse(rows)
  {
    assert Once(rows)(rows[i]);
    assert rows[i] in SingletonRows(rows);
  }

  /** Every row after the collapse is either a row of a peptide that
      occurred once, or the aggregate of all the rows of a peptide that
      occurred more than once. */
  lemma CollapseSource(rows: seq<DbRow>, k: nat)
    requires k < |Collapse(rows)|
    ensures var r := Collapse(rows)[k];
      (r in rows && Count(Peptides(rows), r.peptide) == 1) ||
      (Count(Peptides(rows), r.peptide) >= 2 && r == Aggregate(r.peptide, Copies(rows, r.peptide)))
  {
    var single := SingletonRows(rows);
    if k < |single| {
      assert Collapse(rows)[k] == single[k];
      assert Once(rows)(single[k]);
    } else {
      var d := DuplicatedPeptides(rows)[k - |single|];
      assert Collapse(rows)[k] == Aggregate(d, Copies(rows, d));
      DuplicatedMeaning(rows, d);
    }
  }

  /** The aggregated row of a peptide: 'contaminant' exactly when some copy
      is a contaminant and 'error' otherwise, discoverable when some copy
      is, each dataset, cell line and allele of any copy once, the number
      of datasets, and the largest probability of the copies. */
  lemma AggregateMeaning(p: string, copies: seq<DbRow>)
    requires copies != []
    ensures var r := Aggregate(p, copies);
      r.peptide == p &&
      (r.stratum == "contaminant" <==> exists k :: 0 <= k < |copies| && copies[k].stratum == "contaminant") &&
      (r.stratum != "contaminant" ==> r.stratum == "error") &&
      (r.piscesDiscoverable <==> exists k :: 0 <= k < |copies| && copies[k].piscesDiscoverable) &&
      (r.tdDiscoverable <==> exists k :: 0 <= k < |copies| && copies[k].tdDiscoverable) &&
      r.nDatasets == |r.datasets| &&
      Distinct(r.datasets) && Distinct(r.cellLines) && Distinct(r.alleles) &&
      (forall k :: 0 <= k < |copies| ==> copies[k].maxProbability <= r.maxProbability) &&
      (exists k :: 0 <= k < |copies| && copies[k].maxProbability == r.maxProbability)
  {
    var strata := seq(|copies|, k requires 0 <= k < |copies| => copies[k].stratum);
    if exists k :: 0 <= k < |copies| && copies[k].stratum == "contaminant" {
      var k :| 0 <= k < |copies| && copies[k].stratum == "contaminant";
      assert strata[k] == "contaminant";
    }
  }

  /** The lists of the aggregated row hold exactly the entries of its
      copies. */
  lemma AggregateLists(p: string, copies: seq<DbRow>, x: string)
    ensures var r := Aggregate(p, copies);
      (x in r.datasets <==> exists k :: 0 <= k < |copies| && x in copies[k].datasets) &&
      (x in r.cellLines <==> exists k :: 0 <= k < |copies| && x in copies[k].cellLines) &&
      (x in r.alleles <==> exists k :: 0 <= k < |copies| && x in copies[k].alleles)
  {
    var ds := seq(|copies|, k requires 0 <= k < |copies| => copies[k].datasets);
    var cs := seq(|copies|, k requires 0 <= k < |copies| => copies[k].cellLines);
    var als := seq(|copies|, k requires 0 <= k < |copies| => copies[k].alleles);
    UnionMeaning(ds, x);
    UnionMeaning(cs, x);
    UnionMeaning(als, x);
    if k :| 0 <= k < |copies| && x in copies[k].datasets {
      assert x in ds[k];
    }
    if k :| 0 <= k < |copies| && x in copies[k].cellLines {
      assert x in cs[k];
    }
    if k :| 0 <= k < |copies| && x in copies[k].alleles {
      assert x in als[k];
    }
  }

  /** The empty mapping cells cover every column. */
  lemma EmptyCellsComplete(c: Column)
    ensures c in EmptyCells() && EmptyCells()[c] == if IsCount(c) then Number(0) else Text(Some(""))
  {
    ColumnAtIndex();
    assert ColumnAt(ColumnIndex(c)) == c;
  }

  /** The aggregated row has every column, and every integer list of it
      parses. */
  lemma AggregateRaw(p: string, copies: seq<DbRow>)
    ensures RawRow(Aggregate(p, copies)) && IntCellsParse(Aggregate(p, copies))
  {
    forall c: Column ensures c in EmptyCells() && EmptyCells()[c] == if IsCount(c) then Number(0) else Text(Some("")) {
      EmptyCellsComplete(c);
    }
  }

  /** A row of empty mapping cells finalises to zero counts and empty
      lists. */
  lemma EmptyFinalCell(row: DbRow, c: Column)
    requires row.cells == EmptyCells() && RawRow(row) && IntCellsParse(row)
    ensures FinalCell(c, row) == if IsCount(c) then Number(0) else if IsIntList(c) then Ints([]) else Texts([])
  {
    EmptyCellsComplete(c);
    if CountedList(c).Some? {
      EmptyCellsComplete(CountedList(c).value);
      assert ParseStrList(Some("")) == [];
    } else if IsIntList(c) {
      assert ParseIntList(Some("")) == Ok([]);
    } else if !IsCount(c) {
      assert ParseStrList(Some("")) == [];
    }
  }

  /** Once finalised the aggregated row has zero counts and empty lists. */
  lemma AggregateFinal(p: string, copies: seq<DbRow>, c: Column)
    ensures RawRow(Aggregate(p, copies)) && IntCellsParse(Aggregate(p, copies))
    ensures c in FinalRow(Aggregate(p, copies)).cells && FinalRow(Aggregate(p, copies)).cells[c] ==
      if IsCount(c) then Number(0) else if IsIntList(c) then Ints([]) else Texts([])
  {
    var r := Aggregate(p, copies);
    AggregateRaw(p, copies);
    EmptyCellsComplete(c);
    assert FinalRow(r).cells[c] == FinalCell(c, r);
    EmptyFinalCell(r, c);
  }



  // ---------------------------------------------------------------------
  // Identified peptides
  // ---------------------------------------------------------------------

  /** Whether a remapped PSM is confident: adjusted probability above
      0.85. */
  function Confident<T>(probability: T -> real): T -> bool {
    (x: T) => probability(x) > 0.85
  }

  /** The PISCES identifications: the confident PSMs, one per peptide, the
      one with the highest adjusted probability. */
  function IdentifiedPeptides<T(==)>(psms: seq<T>, peptide: T -> string, probability: T -> real): seq<T> {
    Train.BestByKey(Filter(psms, Confident(probability)), peptide, probability)
  }

  /** Every identification is a confident PSM of the input, and no two
      share a peptide. */
  lemma IdentifiedSource<T>(psms: seq<T>, peptide: T -> string, probability: T -> real, k: nat)
    requires k < |IdentifiedPeptides(psms, peptide, probability)|
    ensures var r := IdentifiedPeptides(psms, peptide, probability);
      r[k] in psms && probability(r[k]) > 0.85 &&
      forall j :: 0 <= j < |r| && j != k ==> peptide(r[j]) != peptide(r[k])
  {
    var f := Filter(psms, Confident(probability));
    var i := Train.BestByKeySource(f, peptide, probability, k);
    assert Confident(probability)(f[i]);
  }

  /** Every peptide with a confident PSM is identified, by a PSM at least as
      probable as each of its confident PSMs: returns its position. */
  lemma IdentifiedCovers<T>(psms: seq<T>, peptide: T -> string, probability: T -> real, i: nat) returns (k: nat)
    requires i < |psms| && probability(psms[i]) > 0.85
    ensures var r := IdentifiedPeptides(psms, peptide, probability);
      k < |r| && peptide(r[k]) == peptide(psms[i]) && probability(psms[i]) <= probability(r[k])
  {
    var f := Filter(psms, Confident(probability));
    assert Confident(probability)(psms[i]);
    var j :| 0 <= j < |f| && f[j] == psms[i];
    k := Train.BestByKeyCovers(f, peptide, probability, j);
    Train.BestByKeyIsMax(f, peptide, probability, j, k);
  }

  /** Whether a target-decoy PSM passes: q-value below 0.01 and posterior
      error probability below 0.1. */
  function Passes<T>(qValue: T -> real, postErrProb: T -> real): T -> bool {
    (x: T) => qValue(x) < 0.01 && postErrProb(x) < 0.1
  }

  /** The target-decoy identifications: the passing PSMs, in order. */
  function TdPsms<T(==)>(psms: seq<T>, qValue: T -> real, postErrProb: T -> real): seq<T> {
    Filter(psms, Passes(qValue, postErrProb))
  }

  /** A PSM is kept exactly when it is in the input and passes both
      thresholds. */
  lemma TdPsmsMeaning<T>(psms: seq<T>, qValue: T -> real, postErrProb: T -> real, x: T)
    ensures x in TdPsms(psms, qValue, postErrProb) <==> x in psms && qValue(x) < 0.01 && postErrProb(x) < 0.1
  {
    var r := TdPsms(psms, qValue, postErrProb);
    if x in r {
      var k :| 0 <= k < |r| && r[k] == x;
      assert Passes(qValue, postErrProb)(r[k]);
    }
    if x in psms && qValue(x) < 0.01 && postErrProb(x) < 0.1 {
      var i :| 0 <= i < |psms| && psms[i] == x;
      assert Passes(qValue, postErrProb)(psms[i]);
    }
  }
}
