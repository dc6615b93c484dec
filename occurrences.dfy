/** Occurrence search as `re.finditer` performs it for a peptide made of
    residue letters (no regular-expression metacharacters): leftmost,
    non-overlapping matches of a literal pattern; an empty pattern matches at
    every index 0..|s|. Also the I -> L folding of protein sequences and
    Python's `str.split` on a single separator character. */
module Occurrences {
  import opened Common

  /** `s.replace('I', 'L')`: isoleucine and leucine have the same mass, so
      sequences are compared with every I read as L. */
  function FoldIL(s: string): (r: string)
    ensures |r| == |s|
    ensures 'I' !in r
    ensures forall k :: 0 <= k < |s| && s[k] != 'I' ==> r[k] == s[k]
    ensures forall k :: 0 <= k < |s| && s[k] == 'I' ==> r[k] == 'L'
  {
    seq(|s|, k requires 0 <= k < |s| => if s[k] == 'I' then 'L' else s[k])
  }

  /** Folding twice is folding once. */
  lemma FoldILIdempotent(s: string)
    ensures FoldIL(FoldIL(s)) == FoldIL(s)
  {
  }

  /** Folding commutes with taking a slice. */
  lemma FoldILSlice(s: string, i: nat, j: nat)
    requires i <= j <= |s|
    ensures FoldIL(s[i..j]) == FoldIL(s)[i..j]
  {
  }

  /** `pat` occurs in `s` starting at index `i`. */
  predicate MatchAt(pat: string, s: string, i: int) {
    0 <= i && i + |pat| <= |s| && s[i..i + |pat|] == pat
  }

  /** Python's `pat in s` for a literal pattern. */
  predicate Contains(s: string, pat: string) {
    exists i :: 0 <= i <= |s| - |pat| && MatchAt(pat, s, i)
  }

  /** Where the scan resumes after a match: past the match, or one further
      on after an empty match. */
  function Step(pat: string): (n: nat)
    ensures n >= 1 && n >= |pat|
  {
    if |pat| == 0 then 1 else |pat|
  }

  /** The starts of the successive matches found by scanning from index `i`. */
  function FindFrom(pat: string, s: string, i: nat): (r: seq<nat>)
    ensures forall k :: 0 <= k < |r| ==> i <= r[k] && MatchAt(pat, s, r[k])
    ensures forall a, b :: 0 <= a < b < |r| ==> r[a] + Step(pat) <= r[b]
    decreases |s| + 1 - i
  {
    if i > |s| then []
    else if MatchAt(pat, s, i) then [i] + FindFrom(pat, s, i + Step(pat))
    else FindFrom(pat, s, i + 1)
  }

  /** `[occ.start() for occ in re.finditer(pat, s)]`. */
  function FindAll(pat: string, s: string): (r: seq<nat>)
    ensures forall k :: 0 <= k < |r| ==> MatchAt(pat, s, r[k])
    ensures forall a, b :: 0 <= a < b < |r| ==> r[a] + Step(pat) <= r[b]
  {
    FindFrom(pat, s, 0)
  }

  /** The scan is leftmost: a match it does not report overlaps a reported
      one that starts earlier. */
  lemma {:induction false} FindFromLeftmost(pat: string, s: string, i: nat, j: nat)
    requires i <= j && MatchAt(pat, s, j)
    ensures j in FindFrom(pat, s, i) || exists p :: p in FindFrom(pat, s, i) && p < j < p + |pat|
    decreases |s| + 1 - i
  {
    if i > |s| {
      assert false;
    } else if MatchAt(pat, s, i) {
      if j == i {
        assert FindFrom(pat, s, i)[0] == i;
      } else if j < i + Step(pat) {
        assert i in FindFrom(pat, s, i) && i < j < i + |pat|;
      } else {
        FindFromLeftmost(pat, s, i + Step(pat), j);
        var r := FindFrom(pat, s, i + Step(pat));
        assert FindFrom(pat, s, i) == [i] + r;
        if j !in r {
          var p :| p in r && p < j < p + |pat|;
          assert p in [i] + r;
        }
      }
    } else {
      FindFromLeftmost(pat, s, i + 1, j);
    }
  }

  /** Every match of `pat` in `s` is either reported or overlapped by an
      earlier reported match. */
  lemma FindAllLeftmost(pat: string, s: string, j: nat)
    requires MatchAt(pat, s, j)
    ensures j in FindAll(pat, s) || exists p :: p in FindAll(pat, s) && p < j < p + |pat|
  {
    FindFromLeftmost(pat, s, 0, j);
  }

  /** `pat in s` exactly when the scan reports something. */
  lemma ContainsIffFound(s: string, pat: string)
    ensures Contains(s, pat) <==> FindAll(pat, s) != []
  {
    if Contains(s, pat) {
      var j :| 0 <= j <= |s| - |pat| && MatchAt(pat, s, j);
      FindAllLeftmost(pat, s, j);
    }
    if FindAll(pat, s) != [] {
      var p := FindAll(pat, s)[0];
      assert 0 <= p <= |s| - |pat| && MatchAt(pat, s, p);
    }
  }

  /** Positions shifted by `d`. */
  function Shift(ps: seq<nat>, d: nat): (r: seq<nat>)
    ensures |r| == |ps|
    ensures forall k :: 0 <= k < |ps| ==> r[k] == ps[k] + d
  {
    seq(|ps|, k requires 0 <= k < |ps| => ps[k] + d)
  }

  lemma ShiftAppend(a: seq<nat>, b: seq<nat>, d: nat)
    ensures Shift(a + b, d) == Shift(a, d) + Shift(b, d)
  {
  }

  lemma ShiftShift(a: seq<nat>, d: nat, e: nat)
    ensures Shift(Shift(a, d), e) == Shift(a, d + e)
  {
  }

  /** Scanning the part of `p + b` that lies in `b` finds the matches of `b`,
      moved by `|p|`. */
  lemma {:induction false} FindFromSuffix(pat: string, p: string, b: string, j: nat)
    ensures FindFrom(pat, p + b, |p| + j) == Shift(FindFrom(pat, b, j), |p|)
    decreases |b| + 1 - j
  {
    var s := p + b;
    if j > |b| {
    } else {
      MatchAtSuffix(pat, p, b, j);
      if MatchAt(pat, b, j) {
        FindFromSuffix(pat, p, b, j + Step(pat));
        ShiftAppend([j], FindFrom(pat, b, j + Step(pat)), |p|);
      } else {
        FindFromSuffix(pat, p, b, j + 1);
      }
    }
  }

  lemma MatchAtSuffix(pat: string, p: string, b: string, j: nat)
    ensures MatchAt(pat, p + b, |p| + j) <==> MatchAt(pat, b, j)
  {
    if j + |pat| <= |b| {
      assert (p + b)[|p| + j..|p| + j + |pat|] == b[j..j + |pat|];
    }
  }

  /** A separator that the pattern does not contain cannot lie inside a
      match, so scanning `a + [c] + b` up to the separator finds exactly the
      matches of `a`. */
  lemma {:induction false} FindFromPrefix(pat: string, a: string, c: char, b: string, i: nat)
    requires c !in pat && i <= |a| + 1
    ensures FindFrom(pat, a + [c] + b, i) == FindFrom(pat, a, i) + FindFrom(pat, a + [c] + b, |a| + 1)
    decreases |a| + 1 - i
  {
    var s := a + [c] + b;
    var rest := FindFrom(pat, s, |a| + 1);
    if i == |a| + 1 {
      assert FindFrom(pat, a, i) == [];
      assert [] + rest == rest;
    } else {
      MatchAtPrefix(pat, a, c, b, i);
      if MatchAt(pat, a, i) {
        var next := i + Step(pat);
        FindFromPrefix(pat, a, c, b, next);
        assert FindFrom(pat, s, i) == [i] + FindFrom(pat, s, next);
        assert FindFrom(pat, a, i) == [i] + FindFrom(pat, a, next);
        assert [i] + (FindFrom(pat, a, next) + rest) == ([i] + FindFrom(pat, a, next)) + rest;
      } else {
        FindFromPrefix(pat, a, c, b, i + 1);
        assert FindFrom(pat, s, i) == FindFrom(pat, s, i + 1);
        assert FindFrom(pat, a, i) == FindFrom(pat, a, i + 1);
      }
    }
  }

  /** A match starting at or before the separator's position `|a|` lies
      inside `a`, since the pattern does not contain the separator. */
  lemma MatchAtPrefix(pat: string, a: string, c: char, b: string, i: nat)
    requires c !in pat && i <= |a|
    ensures MatchAt(pat, a + [c] + b, i) <==> MatchAt(pat, a, i)
  {
    var s := a + [c] + b;
    if i + |pat| <= |a| {
      assert s[i..i + |pat|] == a[i..i + |pat|];
    } else if i + |pat| <= |s| {
      assert s[i..i + |pat|][|a| - i] == c;
    }
  }

  /** The matches in `a + [c] + b` are those of `a` followed by those of `b`
      moved past the separator. */
  lemma FindAllAroundSeparator(pat: string, a: string, c: char, b: string)
    requires c !in pat
    ensures FindAll(pat, a + [c] + b) == FindAll(pat, a) + Shift(FindAll(pat, b), |a| + 1)
  {
    FindFromPrefix(pat, a, c, b, 0);
    FindFromSuffix(pat, a + [c], b, 0);
    assert a + [c] + b == (a + [c]) + b;
  }

  /** Python's `s.split(sep)`: the pieces between separators, at least one. */
  function Split(s: string, sep: char): (r: seq<string>)
    ensures |r| >= 1
    ensures forall k :: 0 <= k < |r| ==> sep !in r[k]
    decreases |s|
  {
    var n := IndexOf(s, sep);
    if n == |s| then [s] else [s[..n]] + Split(s[n + 1..], sep)
  }

  /** `sep.join(parts)`. */
  function Join(parts: seq<string>, sep: char): string
    requires |parts| >= 1
  {
    if |parts| == 1 then parts[0] else parts[0] + [sep] + Join(parts[1..], sep)
  }

  /** Joining the pieces of a split gives back the string. */
  lemma {:induction false} JoinSplit(s: string, sep: char)
    ensures Join(Split(s, sep), sep) == s
    decreases |s|
  {
    var n := IndexOf(s, sep);
    if n < |s| {
      JoinSplit(s[n + 1..], sep);
      assert Split(s, sep)[1..] == Split(s[n + 1..], sep);
      assert s == s[..n] + [sep] + s[n + 1..];
    }
  }

  /** The test of `[y for y in pieces if y]`. */
  function NonEmpty(): string -> bool {
    t => t != ""
  }

  /** `[y for y in s.split(' ') if y]`: the non-empty pieces between single
      spaces, in order, are the tokens of `s`. */
  lemma {:induction false} TokensIsFilteredSplit(s: string)
    ensures Tokens(s) == Filter(Split(s, ' '), NonEmpty())
    decreases |s|
  {
    var n := IndexOf(s, ' ');
    if s == [] {
      assert Split(s, ' ') == [""];
      FilterCons("", [], NonEmpty());
    } else if n == |s| {
      assert Split(s, ' ') == [s];
      assert s[..n] == s && s[n..] == [];
      FilterCons(s, [], NonEmpty());
    } else {
      var rest := Split(s[n + 1..], ' ');
      assert Split(s, ' ') == [s[..n]] + rest;
      FilterCons(s[..n], rest, NonEmpty());
      TokensIsFilteredSplit(s[n + 1..]);
      if n > 0 {
        assert s[n..][0] == ' ' && s[n..][1..] == s[n + 1..];
      }
    }
  }

  function FoldAll(parts: seq<string>): (r: seq<string>)
    ensures |r| == |parts|
    ensures forall k :: 0 <= k < |parts| ==> r[k] == FoldIL(parts[k])
  {
    seq(|parts|, k requires 0 <= k < |parts| => FoldIL(parts[k]))
  }

  lemma FoldAllCons(x: string, rest: seq<string>)
    ensures FoldAll([x] + rest) == [FoldIL(x)] + FoldAll(rest)
  {
  }

  /** Folding I to L does not move the separators: splitting the folded
      protein gives the folded fragments (`il_prot_seq.split('*')` versus
      `prot_frag.replace('I', 'L')` for each fragment). */
  lemma {:induction false} SplitFoldIL(s: string, sep: char)
    requires sep != 'I' && sep != 'L'
    ensures Split(FoldIL(s), sep) == FoldAll(Split(s, sep))
    decreases |s|
  {
    var f := FoldIL(s);
    var n := IndexOf(s, sep);
    IndexOfFoldIL(s, sep);
    if n < |s| {
      var head, tail := s[..n], s[n + 1..];
      SplitFoldIL(tail, sep);
      assert FoldIL(tail) == f[n + 1..];
      assert FoldIL(head) == f[..n];
      calc {
        Split(f, sep);
        [f[..n]] + Split(f[n + 1..], sep);
        [FoldIL(head)] + FoldAll(Split(tail, sep));
        { FoldAllCons(head, Split(tail, sep)); }
        FoldAll([head] + Split(tail, sep));
        FoldAll(Split(s, sep));
      }
    } else {
      assert Split(s, sep) == [s];
      assert Split(f, sep) == [f];
    }
  }

  lemma IndexOfFoldIL(s: string, sep: char)
    requires sep != 'I' && sep != 'L'
    ensures IndexOf(FoldIL(s), sep) == IndexOf(s, sep)
  {
    var f := FoldIL(s);
    var n := IndexOf(s, sep);
    if n < |s| {
      assert f[n] == sep;
      assert forall k :: 0 <= k < n ==> f[k] != sep by {
        forall k | 0 <= k < n ensures f[k] != sep {
          assert s[k] != sep;
        }
      }
    } else {
      assert sep !in f by {
        forall k | 0 <= k < |f| ensures f[k] != sep {
          assert s[k] != sep;
        }
      }
    }
  }

  /** The matches of `pat` in each fragment, moved to the coordinates of the
      joined string (`offset` is where the first fragment starts). */
  function FragmentPositions(pat: string, frags: seq<string>, offset: nat): seq<nat>
  {
    if frags == [] then []
    else Shift(FindAll(pat, frags[0]), offset) + FragmentPositions(pat, frags[1..], offset + |frags[0]| + 1)
  }

  /** Moving the matches found on both sides of a separator. */
  lemma ShiftAcross(all: seq<nat>, left: seq<nat>, right: seq<nat>, len: nat, offset: nat, rest: seq<nat>)
    requires all == left + Shift(right, len + 1)
    requires rest == Shift(right, offset + len + 1)
    ensures Shift(all, offset) == Shift(left, offset) + rest
  {
    ShiftAppend(left, Shift(right, len + 1), offset);
    ShiftShift(right, len + 1, offset);
  }

  /** Searching the joined pieces or the pieces one by one gives the same
      matches in the same order, when the pattern cannot span a separator. */
  lemma {:induction false} FindAllByPieces(pat: string, parts: seq<string>, sep: char, offset: nat)
    requires |parts| >= 1 && sep !in pat
    ensures Shift(FindAll(pat, Join(parts, sep)), offset) == FragmentPositions(pat, parts, offset)
  {
    var first := parts[0];
    if |parts| == 1 {
      var found := Shift(FindAll(pat, first), offset);
      assert FragmentPositions(pat, parts, offset) == found + FragmentPositions(pat, [], offset + |first| + 1);
      assert found + [] == found;
    } else {
      var tail := Join(parts[1..], sep);
      var next := offset + |first| + 1;
      FindAllByPieces(pat, parts[1..], sep, next);
      FindAllAroundSeparator(pat, first, sep, tail);
      ShiftAcross(FindAll(pat, Join(parts, sep)), FindAll(pat, first), FindAll(pat, tail), |first|, offset,
                  FragmentPositions(pat, parts[1..], next));
    }
  }

  /** Searching the whole string or its `sep`-delimited fragments one by one
      gives the same matches in the same order. */
  lemma FindAllBySplit(pat: string, s: string, sep: char, offset: nat)
    requires sep !in pat
    ensures Shift(FindAll(pat, s), offset) == FragmentPositions(pat, Split(s, sep), offset)
  {
    JoinSplit(s, sep);
    FindAllByPieces(pat, Split(s, sep), sep, offset);
  }
}
