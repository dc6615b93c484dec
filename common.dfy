/** Shared vocabulary of the pipeline: optional values, Python-style failures,
    Python slicing and indexing, and the small list utilities (counting,
    first-occurrence de-duplication, whitespace tokenising) that several
    stages of the pipeline rely on. */
module Common {

  datatype Option<T> = None | Some(value: T)

  /** The Python exceptions the modelled code can raise. */
  datatype Error =
    | IndexError           // s[i] with i out of range
    | ValueError           // min() of an empty list, int('x'), unknown names
    | ZeroDivisionError    // x / 0
    | AssertionError       // a failed `assert`
    | KeyError             // a missing dictionary key or pandas column
    | ColumnNotFoundError  // a polars expression naming a missing column

  datatype Result<T> = Ok(value: T) | Err(error: Error)

  function Min(a: int, b: int): (m: int)
    ensures m <= a && m <= b && (m == a || m == b)
  {
    if a <= b then a else b
  }

  function Max(a: int, b: int): (m: int)
    ensures m >= a && m >= b && (m == a || m == b)
  {
    if a >= b then a else b
  }

  /** Python's `s[i:j]` for non-negative bounds: both ends are clipped to the
      length and an inverted range is empty. */
  function Slice<T>(s: seq<T>, i: nat, j: nat): (r: seq<T>)
    ensures |r| == if i < j && i < |s| then Min(j, |s|) - i else 0
    ensures forall k :: 0 <= k < |r| ==> r[k] == s[i + k]
  {
    if i < j && i < |s| then s[i..Min(j, |s|)] else []
  }

  /** Python's `s[i]`, where a negative index counts from the end. */
  function PyIndex<T>(s: seq<T>, i: int): (r: Option<T>)
    ensures r.Some? <==> -|s| <= i < |s|
    ensures 0 <= i < |s| ==> r == Some(s[i])
  {
    if 0 <= i < |s| then Some(s[i])
    else if -|s| <= i < 0 then Some(s[|s| + i])
    else None
  }

  /** Number of occurrences of `x` in `s` (Python's `list.count`). */
  function Count<T(==)>(s: seq<T>, x: T): (n: nat)
    ensures n <= |s|
    ensures n == 0 <==> x !in s
  {
    if s == [] then 0 else (if s[0] == x then 1 else 0) + Count(s[1..], x)
  }

  lemma {:induction false} CountAppend<T>(a: seq<T>, b: seq<T>, x: T)
    ensures Count(a + b, x) == Count(a, x) + Count(b, x)
  {
    if a != [] {
      assert (a + b)[1..] == a[1..] + b;
      CountAppend(a[1..], b, x);
    } else {
      assert a + b == b;
    }
  }

  /** Index of the first `x` in `s`, or `|s|` when there is none. */
  function IndexOf<T(==)>(s: seq<T>, x: T): (i: nat)
    ensures i <= |s|
    ensures i < |s| ==> s[i] == x
    ensures forall k :: 0 <= k < i ==> s[k] != x
    ensures i == |s| <==> x !in s
  {
    if s == [] then 0 else if s[0] == x then 0 else 1 + IndexOf(s[1..], x)
  }

  predicate Distinct<T(==)>(s: seq<T>) {
    forall i, j :: 0 <= i < j < |s| ==> s[i] != s[j]
  }

  /** The elements of `s` in order of first occurrence, each once
      (`drop_duplicates()` / `unique(maintain_order=True)` on one column). */
  function Dedup<T(==)>(s: seq<T>): (r: seq<T>)
    ensures Distinct(r)
    ensures forall i :: 0 <= i < |s| ==> s[i] in r
    ensures forall i :: 0 <= i < |r| ==> r[i] in s
    ensures |r| <= |s|
  {
    var r := DedupFrom(s, []);
    assert [] + r == r;
    r
  }

  function DedupFrom<T(==)>(s: seq<T>, seen: seq<T>): (r: seq<T>)
    requires Distinct(seen)
    ensures Distinct(seen + r)
    ensures forall i :: 0 <= i < |s| && s[i] !in seen ==> s[i] in r
    ensures forall i :: 0 <= i < |r| ==> r[i] in s && r[i] !in seen
    ensures |r| <= |s|
    decreases |s|
  {
    if s == [] then []
    else if s[0] in seen then DedupFrom(s[1..], seen)
    else
      assert seen + [s[0]] + DedupFrom(s[1..], seen + [s[0]]) == seen + ([s[0]] + DedupFrom(s[1..], seen + [s[0]]));
      [s[0]] + DedupFrom(s[1..], seen + [s[0]])
  }

  /** Python's `s.split(' ')` followed by dropping the empty pieces: the
      maximal runs of non-space characters, in order. */
  function Tokens(s: string): (r: seq<string>)
    ensures forall t :: t in r ==> t != "" && ' ' !in t
    decreases |s|
  {
    if s == [] then []
    else if s[0] == ' ' then Tokens(s[1..])
    else
      var n := IndexOf(s, ' ');
      assert s[..n] != "" && ' ' !in s[..n] by {
        assert s[0] in s[..n];
        forall k | 0 <= k < n ensures s[..n][k] != ' ' { }
      }
      [s[..n]] + Tokens(s[n..])
  }

  function Sum(s: seq<real>): real {
    if s == [] then 0.0 else s[0] + Sum(s[1..])
  }

  /** numpy's mean; the mean of an empty slice is `nan`, modelled as None. */
  function Mean(s: seq<real>): (m: Option<real>)
    ensures m.Some? <==> |s| > 0
  {
    if |s| == 0 then None else Some(Sum(s) / (|s| as real))
  }

  /** Some element of `r` has key `k`. */
  predicate HasKey<T, K(==)>(r: seq<T>, key: T -> K, k: K) {
    exists j :: 0 <= j < |r| && key(r[j]) == k
  }

  /** `s[i]` is the first element of `s` with its key. */
  predicate FirstOfKey<T, K(==)>(s: seq<T>, key: T -> K, i: int) {
    0 <= i < |s| && forall k :: 0 <= k < i ==> key(s[k]) != key(s[i])
  }

  /** `unique(subset=..., maintain_order=True)` in polars and
      `drop_duplicates(subset=...)` in pandas: the first row of every key, in
      the order of the input. */
  function UniqueBy<T, K(==)>(s: seq<T>, key: T -> K): (r: seq<T>)
    ensures |r| <= |s|
    ensures forall i, j :: 0 <= i < j < |r| ==> key(r[i]) != key(r[j])
    ensures forall i :: 0 <= i < |s| ==> HasKey(r, key, key(s[i]))
    ensures forall j :: 0 <= j < |r| ==> exists i :: FirstOfKey(s, key, i) && r[j] == s[i]
  {
    if s == [] then []
    else
      var prefix := s[..|s| - 1];
      var r := UniqueBy(prefix, key);
      var last := s[|s| - 1];
      assert forall i :: 0 <= i < |prefix| ==> prefix[i] == s[i];
      assert forall i :: FirstOfKey(prefix, key, i) ==> FirstOfKey(s, key, i);
      if HasKey(r, key, key(last)) then r
      else
        assert FirstOfKey(s, key, |s| - 1) by {
          forall k | 0 <= k < |s| - 1 ensures key(s[k]) != key(last) {
            assert HasKey(r, key, key(prefix[k]));
          }
        }
        var r' := r + [last];
        assert forall j :: 0 <= j < |r| ==> r'[j] == r[j];
        assert forall i :: 0 <= i < |s| - 1 ==> HasKey(r', key, key(s[i])) by {
          forall i | 0 <= i < |s| - 1 ensures HasKey(r', key, key(s[i])) {
            assert HasKey(r, key, key(prefix[i]));
            var j :| 0 <= j < |r| && key(r[j]) == key(prefix[i]);
            assert key(r'[j]) == key(s[i]);
          }
        }
        assert key(r'[|r|]) == key(s[|s| - 1]);
        r'
  }

  /** A loop over steps that each raise, skip or yield one value: the
      first error stops it, the values are appended to `acc` in order. */
  function Collect<T>(steps: seq<Result<Option<T>>>, acc: seq<T>): Result<seq<T>>
    decreases |steps|
  {
    if steps == [] then Ok(acc)
    else
      match steps[0]
      case Err(e) => Err(e)
      case Ok(p) => Collect(steps[1..], if p.Some? then acc + [p.value] else acc)
  }

  /** The loop raises exactly when some step raises. */
  lemma {:induction false} CollectErrors<T>(steps: seq<Result<Option<T>>>, acc: seq<T>)
    ensures Collect(steps, acc).Err? <==> exists i :: 0 <= i < |steps| && steps[i].Err?
    decreases |steps|
  {
    if steps != [] {
      forall i | 1 <= i < |steps| ensures steps[i] == steps[1..][i - 1] { }
      if steps[0].Ok? {
        CollectErrors(steps[1..], if steps[0].value.Some? then acc + [steps[0].value.value] else acc);
      }
    }
  }

  /** The loop only appends: what was collected stays in front. */
  lemma {:induction false} CollectKeeps<T>(steps: seq<Result<Option<T>>>, acc: seq<T>)
    requires Collect(steps, acc).Ok?
    ensures |acc| <= |Collect(steps, acc).value| && Collect(steps, acc).value[..|acc|] == acc
    decreases |steps|
  {
    if steps != [] {
      var acc' := if steps[0].value.Some? then acc + [steps[0].value.value] else acc;
      CollectKeeps(steps[1..], acc');
      assert acc'[..|acc|] == acc;
    }
  }

  /** Every collected value is the value of one step: returns its index. */
  lemma {:induction false} CollectSource<T>(steps: seq<Result<Option<T>>>, acc: seq<T>, k: nat) returns (i: nat)
    requires Collect(steps, acc).Ok? && |acc| <= k < |Collect(steps, acc).value|
    ensures i < |steps| && steps[i] == Ok(Some(Collect(steps, acc).value[k]))
    decreases |steps|
  {
    if steps == [] {
      assert false;
    } else {
      var p := steps[0].value;
      var acc' := if p.Some? then acc + [p.value] else acc;
      var out := Collect(steps, acc).value;
      assert Collect(steps[1..], acc') == Ok(out);
      CollectKeeps(steps[1..], acc');
      if p.Some? && k == |acc| {
        i := 0;
        assert out[..|acc'|] == acc';
        assert out[k] == acc'[k];
      } else {
        var i' := CollectSource(steps[1..], acc', k);
        i := i' + 1;
        assert steps[i] == steps[1..][i'];
      }
    }
  }

  /** Every value a step yields is collected. */
  lemma {:induction false} CollectComplete<T>(steps: seq<Result<Option<T>>>, acc: seq<T>, i: nat)
    requires Collect(steps, acc).Ok?
    requires i < |steps| && steps[i].Ok? && steps[i].value.Some?
    ensures steps[i].value.value in Collect(steps, acc).value
    decreases |steps|
  {
    var p := steps[0].value;
    var acc' := if p.Some? then acc + [p.value] else acc;
    var out := Collect(steps, acc).value;
    assert Collect(steps[1..], acc') == Ok(out);
    if i == 0 {
      CollectKeeps(steps[1..], acc');
      assert out[..|acc'|] == acc';
      assert out[|acc|] == acc'[|acc|];
    } else {
      assert steps[i] == steps[1..][i - 1];
      CollectComplete(steps[1..], acc', i - 1);
    }
  }

  /** Where the j-th kept element sits in the input. */
  lemma UniqueBySource<T, K>(s: seq<T>, key: T -> K, j: nat) returns (i: nat)
    requires j < |UniqueBy(s, key)|
    ensures i < |s| && UniqueBy(s, key)[j] == s[i]
  {
    var i' :| FirstOfKey(s, key, i') && UniqueBy(s, key)[j] == s[i'];
    i := i';
  }

  /** The last present value of `xs`: a value set in a loop and overwritten
      by every later iteration that sets one. */
  function LastSome<T>(xs: seq<Option<T>>): Option<T>
  {
    if xs == [] then None
    else if xs[|xs| - 1].Some? then xs[|xs| - 1]
    else LastSome(xs[..|xs| - 1])
  }

  /** It is absent exactly when every value is, and otherwise it is the
      value of an iteration after which none sets one. */
  lemma {:induction false} LastSomeMeaning<T>(xs: seq<Option<T>>)
    ensures LastSome(xs).None? <==> forall q :: 0 <= q < |xs| ==> xs[q].None?
    ensures LastSome(xs).Some? ==>
      exists q :: 0 <= q < |xs| && LastSome(xs) == xs[q] && forall q' :: q < q' < |xs| ==> xs[q'].None?
  {
    if xs != [] {
      var n := |xs| - 1;
      var init := xs[..n];
      LastSomeMeaning(init);
      assert forall q :: 0 <= q < n ==> init[q] == xs[q];
      if xs[n].Some? {
        assert LastSome(xs) == xs[n];
      } else {
        assert LastSome(xs) == LastSome(init);
        if LastSome(init).Some? {
          var q :| 0 <= q < n && LastSome(init) == init[q] && forall q' :: q < q' < n ==> init[q'].None?;
          assert LastSome(xs) == xs[q];
        }
      }
    }
  }

  lemma LastSomeSnoc<T>(xs: seq<Option<T>>)
    requires |xs| > 0
    ensures LastSome(xs) == if xs[|xs| - 1].Some? then xs[|xs| - 1] else LastSome(xs[..|xs| - 1])
  {
  }

  /** A count over a positive total is a fraction in [0, 1], below 1 when
      the count is below the total. */
  lemma FractionBounds(a: nat, b: nat)
    requires 0 < b
    ensures 0.0 <= a as real / b as real
    ensures a <= b ==> a as real / b as real <= 1.0
    ensures a < b ==> a as real / b as real < 1.0
    ensures (a as real / b as real) * (b as real) == a as real
  {
  }

  /** Python's `s.startswith(prefix)`. */
  predicate StartsWith(s: string, prefix: string) {
    |prefix| <= |s| && s[..|prefix|] == prefix
  }

  /** A list comprehension `[x for x in s if p(x)]`: the elements satisfying
      `p`, in order. */
  function Filter<T(==)>(s: seq<T>, p: T -> bool): (r: seq<T>)
    ensures |r| <= |s|
    ensures forall i :: 0 <= i < |r| ==> r[i] in s && p(r[i])
    ensures forall i :: 0 <= i < |s| && p(s[i]) ==> s[i] in r
    decreases |s|
  {
    if s == [] then []
    else
      var rest := Filter(s[1..], p);
      assert forall i :: 1 <= i < |s| ==> s[i] == s[1..][i - 1];
      if p(s[0]) then [s[0]] + rest else rest
  }

  /** In a list without repetitions every element occurs once. */
  lemma {:induction false} CountDistinct<T>(s: seq<T>, x: T)
    requires Distinct(s)
    ensures Count(s, x) == if x in s then 1 else 0
    decreases |s|
  {
    if s != [] {
      assert Distinct(s[1..]) by {
        forall i, j | 0 <= i < j < |s[1..]| ensures s[1..][i] != s[1..][j] {
          assert s[1..][i] == s[i + 1] && s[1..][j] == s[j + 1];
        }
      }
      CountDistinct(s[1..], x);
      if s[0] == x {
        forall i | 0 <= i < |s[1..]| ensures s[1..][i] != x {
          assert s[1..][i] == s[i + 1];
        }
      }
      assert x in s <==> x == s[0] || x in s[1..];
    }
  }

  /** Filtering a list with one element in front. */
  lemma FilterCons<T>(x: T, rest: seq<T>, p: T -> bool)
    ensures Filter([x] + rest, p) == if p(x) then [x] + Filter(rest, p) else Filter(rest, p)
  {
    assert ([x] + rest)[1..] == rest;
  }

  /** Filtering a list extended by one element extends the filtered list by
      that element when it passes. */
  lemma {:induction false} FilterSnoc<T>(s: seq<T>, x: T, p: T -> bool)
    ensures Filter(s + [x], p) == Filter(s, p) + (if p(x) then [x] else [])
    decreases |s|
  {
    if s == [] {
      assert [] + [x] == [x];
    } else {
      assert (s + [x])[0] == s[0];
      assert (s + [x])[1..] == s[1..] + [x];
      FilterSnoc(s[1..], x, p);
    }
  }

  /** The same, for a loop that walks `s` by index. */
  lemma FilterPrefixSnoc<T>(s: seq<T>, i: nat, p: T -> bool)
    requires i < |s|
    ensures Filter(s[..i + 1], p) == Filter(s[..i], p) + (if p(s[i]) then [s[i]] else [])
  {
    assert s[..i + 1] == s[..i] + [s[i]];
    FilterSnoc(s[..i], s[i], p);
  }

  /** `f` applied to every element, in order. */
  function MapSeq<A, B>(xs: seq<A>, f: A -> B): (r: seq<B>)
    ensures |r| == |xs| && forall k :: 0 <= k < |r| ==> r[k] == f(xs[k])
  {
    seq(|xs|, k requires 0 <= k < |xs| => f(xs[k]))
  }

  lemma MapSeqAppend<A, B>(a: seq<A>, b: seq<A>, f: A -> B)
    ensures MapSeq(a + b, f) == MapSeq(a, f) + MapSeq(b, f)
  {
  }

  /** The results of `f` on the elements, concatenated in order. */
  function FlatMap<A, B>(xs: seq<A>, f: A -> seq<B>): seq<B>
    decreases |xs|
  {
    if xs == [] then [] else f(xs[0]) + FlatMap(xs[1..], f)
  }

  /** The results of element `i` sit at `off`, … in the concatenation. */
  lemma {:induction false} FlatMapAt<A, B>(xs: seq<A>, f: A -> seq<B>, i: nat) returns (off: nat)
    requires i < |xs|
    ensures off + |f(xs[i])| <= |FlatMap(xs, f)|
    ensures forall j :: 0 <= j < |f(xs[i])| ==> FlatMap(xs, f)[off + j] == f(xs[i])[j]
    decreases |xs|
  {
    assert FlatMap(xs, f) == f(xs[0]) + FlatMap(xs[1..], f);
    if i == 0 {
      off := 0;
    } else {
      assert xs[1..][i - 1] == xs[i];
      var o := FlatMapAt(xs[1..], f, i - 1);
      off := |f(xs[0])| + o;
    }
  }

  /** Every element of the concatenation is a result of some element:
      returns the element's index and the position among its results. */
  lemma {:induction false} FlatMapSource<A, B>(xs: seq<A>, f: A -> seq<B>, k: nat) returns (i: nat, j: nat)
    requires k < |FlatMap(xs, f)|
    ensures i < |xs| && j < |f(xs[i])| && FlatMap(xs, f)[k] == f(xs[i])[j]
    decreases |xs|
  {
    assert FlatMap(xs, f) == f(xs[0]) + FlatMap(xs[1..], f);
    if k < |f(xs[0])| {
      i, j := 0, k;
    } else {
      var i', j' := FlatMapSource(xs[1..], f, k - |f(xs[0])|);
      assert xs[1..][i'] == xs[i' + 1];
      i, j := i' + 1, j';
    }
  }
}
