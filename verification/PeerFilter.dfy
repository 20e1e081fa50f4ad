/**
 The distance filter: collect a window of measurements, sort it in place, and average what is left when the smallest and
 the largest ones are cut off.  Distances are reals: rounding is not modelled.
 */
module PeerFilter {
  import opened Bytes

  ghost predicate Sorted(s: seq<real>) {
    forall i, j :: 0 <= i < j < |s| ==> s[i] <= s[j]
  }

  // ---------------------------------------------------------------- selection sort

  lemma SwapIsPermutation(s: seq<real>, i: nat, j: nat)
    requires i < |s| && j < |s|
    ensures multiset(s[i := s[j]][j := s[i]]) == multiset(s)
  {}

  /** The smallest element of a[i..n]. */
  method MinIndex(a: array<real>, i: nat, n: nat) returns (m: nat)
    requires i < n <= a.Length
    ensures i <= m < n && forall k :: i <= k < n ==> a[m] <= a[k]
  {
    m := i;
    for j := i + 1 to n
      invariant i <= m < n && forall k :: i <= k < j ==> a[m] <= a[k]
    {
      if a[j] < a[m] { m := j; }
    }
  }

  method Swap(a: array<real>, i: nat, j: nat)
    requires i < a.Length && j < a.Length
    modifies a
    ensures a[..] == old(a[..])[i := old(a[j])][j := old(a[i])]
    ensures multiset(a[..]) == multiset(old(a[..]))
  {
    SwapIsPermutation(a[..], i, j);
    a[i], a[j] := a[j], a[i];
  }

  /** a[..i] is sorted, and nothing behind it is smaller than anything in it. */
  ghost predicate SortedBelow(s: seq<real>, i: nat) {
    i <= |s| && forall p, q :: 0 <= p < i && p < q < |s| ==> s[p] <= s[q]
  }

  lemma OneMore(s: seq<real>, i: nat, m: nat)
    requires i <= m < |s| && SortedBelow(s, i) && forall k :: i <= k < |s| ==> s[m] <= s[k]
    ensures SortedBelow(s[m := s[i]][i := s[m]], i + 1)
  {}

  method SelectionSort(a: array<real>)
    modifies a
    ensures Sorted(a[..]) && multiset(a[..]) == multiset(old(a[..]))
    ensures a[..] == Sort(old(a[..]))
  {
    var i := 0;
    while i < a.Length - 1
      invariant 0 <= i && (i < a.Length || i == 0)
      invariant SortedBelow(a[..], i)
      invariant multiset(a[..]) == multiset(old(a[..]))
    {
      var m := MinIndex(a, i, a.Length);
      OneMore(a[..], i, m);
      Swap(a, m, i);
      i := i + 1;
    }
    SortSorts(old(a[..]));
    SortedIsUnique(a[..], Sort(old(a[..])));
  }

  // ---------------------------------------------------------------- what the sorted window is

  function Insert(x: real, s: seq<real>): (r: seq<real>)
    ensures |r| == |s| + 1
  {
    if |s| == 0 || x <= s[0] then [x] + s else [s[0]] + Insert(x, s[1..])
  }

  function Sort(s: seq<real>): (r: seq<real>)
    ensures |r| == |s|
  {
    if |s| == 0 then [] else Insert(s[0], Sort(s[1..]))
  }

  lemma {:induction false} InsertPermutes(x: real, s: seq<real>)
    ensures multiset(Insert(x, s)) == multiset(s) + multiset{x}
    decreases |s|
  {
    if |s| > 0 && x > s[0] {
      InsertPermutes(x, s[1..]);
      FirstAway(s);
    }
  }

  /** What is inserted above a lower bound stays above it. */
  lemma {:induction false} InsertAbove(low: real, x: real, s: seq<real>)
    requires low <= x && forall k :: 0 <= k < |s| ==> low <= s[k]
    ensures forall k :: 0 <= k < |s| + 1 ==> low <= Insert(x, s)[k]
    decreases |s|
  {
    if |s| > 0 && x > s[0] { InsertAbove(low, x, s[1..]); }
  }

  lemma {:induction false} InsertKeepsSorted(x: real, s: seq<real>)
    requires Sorted(s)
    ensures Sorted(Insert(x, s))
    decreases |s|
  {
    if |s| > 0 && x > s[0] {
      InsertKeepsSorted(x, s[1..]);
      InsertAbove(s[0], x, s[1..]);
      PrefixLeast(s[0], Insert(x, s[1..]));
    }
  }

  lemma PrefixLeast(x: real, t: seq<real>)
    requires Sorted(t) && forall k :: 0 <= k < |t| ==> x <= t[k]
    ensures Sorted([x] + t)
  {}

  lemma {:induction false} SortSorts(s: seq<real>)
    ensures Sorted(Sort(s)) && multiset(Sort(s)) == multiset(s)
  {
    if |s| > 0 {
      SortSorts(s[1..]);
      InsertKeepsSorted(s[0], Sort(s[1..]));
      InsertPermutes(s[0], Sort(s[1..]));
      FirstAway(s);
    }
  }

  lemma {:induction false} SamePermutationLength(s: seq<real>, t: seq<real>)
    requires multiset(s) == multiset(t)
    ensures |s| == |t|
  {
    assert |multiset(s)| == |multiset(t)|;
  }

  lemma LeastFirst(s: seq<real>, t: seq<real>)
    requires Sorted(s) && Sorted(t) && multiset(s) == multiset(t) && |s| > 0 && |t| > 0
    ensures s[0] <= t[0]
  {
    assert t[0] in multiset(s);
    var k :| 0 <= k < |s| && s[k] == t[0];
  }

  /** There is only one way to sort. */
  lemma {:induction false} SortedIsUnique(s: seq<real>, t: seq<real>)
    requires Sorted(s) && Sorted(t) && multiset(s) == multiset(t)
    ensures s == t
  {
    SamePermutationLength(s, t);
    if |s| > 0 {
      LeastFirst(s, t);
      LeastFirst(t, s);
      FirstAway(s);
      FirstAway(t);
      SortedIsUnique(s[1..], t[1..]);
      assert s == [s[0]] + s[1..] && t == [t[0]] + t[1..];
    }
  }

  // ---------------------------------------------------------------- the trimmed mean

  function Sum(s: seq<real>, i: nat, j: nat): real
    requires i <= j <= |s|
    decreases j
  {
    if i == j then 0.0 else Sum(s, i, j - 1) + s[j - 1]
  }

  /** The mean of a window without its `e` smallest and `e` largest values. */
  function TrimmedMean(s: seq<real>, e: nat): real
    requires 2 * e < |s|
  {
    Sum(Sort(s), e, |s| - e) / (|s| - 2 * e) as real
  }

  lemma {:induction false} SumBounds(s: seq<real>, i: nat, j: nat, lo: real, hi: real)
    requires i <= j <= |s| && forall k :: i <= k < j ==> lo <= s[k] <= hi
    ensures lo * (j - i) as real <= Sum(s, i, j) <= hi * (j - i) as real
    decreases j
  {
    if i < j {
      SumBounds(s, i, j - 1, lo, hi);
      OneMoreTerm(lo, j - 1 - i);
      OneMoreTerm(hi, j - 1 - i);
    }
  }

  lemma OneMoreTerm(x: real, n: nat)
    ensures x * (n + 1) as real == x * n as real + x
  {
    var d := n as real;
    assert (n + 1) as real == d + 1.0;
    assert x * (d + 1.0) == x * d + x;
  }

  predicate Outlier(x: real, lo: real, hi: real) {
    x < lo || hi < x
  }

  /** How many values lie outside [lo, hi]. */
  function Outliers(s: seq<real>, lo: real, hi: real): nat {
    if |s| == 0 then 0 else Outliers(s[1..], lo, hi) + if Outlier(s[0], lo, hi) then 1 else 0
  }

  lemma {:induction false} OutliersSplit(s: seq<real>, k: nat, lo: real, hi: real)
    requires k <= |s|
    ensures Outliers(s, lo, hi) == Outliers(s[..k], lo, hi) + Outliers(s[k..], lo, hi)
  {
    if k > 0 {
      OutliersSplit(s[1..], k - 1, lo, hi);
      assert s[..k][1..] == s[1..][..k - 1];
      assert s[1..][k - 1..] == s[k..];
    } else {
      assert s[0..] == s;
    }
  }

  lemma {:induction false} AllOutliers(s: seq<real>, lo: real, hi: real)
    requires forall k :: 0 <= k < |s| ==> Outlier(s[k], lo, hi)
    ensures Outliers(s, lo, hi) == |s|
  {
    if |s| > 0 { AllOutliers(s[1..], lo, hi); }
  }

  lemma WithoutOne(t: seq<real>, k: nat, lo: real, hi: real)
    requires k < |t|
    ensures Outliers(t, lo, hi) == Outliers(t[..k] + t[k + 1..], lo, hi) + if Outlier(t[k], lo, hi) then 1 else 0
  {
    var u := t[..k] + t[k + 1..];
    OutliersSplit(t, k, lo, hi);
    OutliersSplit(u, k, lo, hi);
    assert u[..k] == t[..k] && u[k..] == t[k + 1..] == t[k..][1..];
  }

  lemma {:induction false} OutliersOfPermutation(s: seq<real>, t: seq<real>, lo: real, hi: real)
    requires multiset(s) == multiset(t)
    ensures Outliers(s, lo, hi) == Outliers(t, lo, hi)
    decreases |s|
  {
    hide Outlier;
    SamePermutationLength(s, t);
    if |s| > 0 {
      var k := Paired(s, t);
      OutliersOfPermutation(s[1..], t[..k] + t[k + 1..], lo, hi);
      WithoutOne(t, k, lo, hi);
    }
  }

  /** The first element of a permutation, and the rest as a permutation of the rest. */
  lemma Paired(s: seq<real>, t: seq<real>) returns (k: nat)
    requires multiset(s) == multiset(t) && |s| > 0
    ensures k < |t| && t[k] == s[0] && multiset(s[1..]) == multiset(t[..k] + t[k + 1..])
  {
    FirstAway(s);
    k := IndexOf(t, s[0]);
    OneAway(t, k);
  }

  lemma FirstAway(s: seq<real>)
    requires |s| > 0
    ensures s[0] in multiset(s) && multiset(s[1..]) == multiset(s) - multiset{s[0]}
  {
    assert s == [s[0]] + s[1..];
  }

  lemma OneAway(t: seq<real>, k: nat)
    requires k < |t|
    ensures multiset(t[..k] + t[k + 1..]) == multiset(t) - multiset{t[k]}
  {
    assert t == t[..k] + [t[k]] + t[k + 1..];
  }

  ghost function IndexOf(t: seq<real>, x: real): (k: nat)
    requires x in multiset(t)
    ensures k < |t| && t[k] == x
  {
    var k :| 0 <= k < |t| && t[k] == x; k
  }

  /** In a sorted window with at most `e` outliers everything between the two cuts is inside. */
  lemma MiddleIsInside(s: seq<real>, e: nat, lo: real, hi: real, k: nat)
    requires Sorted(s) && e <= k < |s| - e && Outliers(s, lo, hi) <= e
    ensures lo <= s[k] <= hi
  {
    if s[k] < lo {
      AllOutliers(s[..k + 1], lo, hi);
      OutliersSplit(s, k + 1, lo, hi);
      assert false;
    }
    if hi < s[k] {
      AllOutliers(s[k..], lo, hi);
      OutliersSplit(s, k, lo, hi);
      assert false;
    }
  }

  /** Robustness: at most `e` values outside an interval cannot move the trimmed mean out of it. */
  lemma TrimmedMeanIsRobust(s: seq<real>, e: nat, lo: real, hi: real)
    requires 2 * e < |s| && Outliers(s, lo, hi) <= e
    ensures lo <= TrimmedMean(s, e) <= hi
  {
    hide Sorted, Sort, Outliers, Sum;
    var t := Sort(s);
    assert Sorted(t) && Outliers(t, lo, hi) <= e by {
      SortSorts(s);
      OutliersOfPermutation(s, t, lo, hi);
    }
    forall k | e <= k < |s| - e ensures lo <= t[k] <= hi { MiddleIsInside(t, e, lo, hi, k); }
    SumBounds(t, e, |s| - e, lo, hi);
    QuotientBounds(Sum(t, e, |s| - e), (|s| - 2 * e) as real, lo, hi);
  }

  lemma {:induction false} SumSplits(s: seq<real>, i: nat, j: nat, k: nat)
    requires i <= j <= k <= |s|
    ensures Sum(s, i, k) == Sum(s, i, j) + Sum(s, j, k)
    decreases k
  {
    if j < k { SumSplits(s, i, j, k - 1); }
  }

  lemma {:induction false} SumOfSlice(s: seq<real>, from: nat, t: seq<real>, n: nat)
    requires from + n <= |s| && n <= |t| && s[from..from + n] == t[..n]
    ensures Sum(s, from, from + n) == Sum(t, 0, n)
    decreases n
  {
    if n > 0 {
      assert s[from..from + n - 1] == s[from..from + n][..n - 1] == t[..n][..n - 1] == t[..n - 1];
      assert s[from + n - 1] == s[from..from + n][n - 1] == t[..n][n - 1] == t[n - 1];
      SumOfSlice(s, from, t, n - 1);
    }
  }

  lemma SumWithout(t: seq<real>, k: nat)
    requires k < |t|
    ensures var u := t[..k] + t[k + 1..]; Sum(t, 0, |t|) == Sum(u, 0, |u|) + t[k]
  {
    var u := t[..k] + t[k + 1..];
    SumSplits(t, 0, k, |t|);
    SumSplits(t, k, k + 1, |t|);
    SumSplits(u, 0, k, |u|);
    SumOfSlice(u, 0, t, k);
    var rest := t[k + 1..];
    SumOfSlice(t, k + 1, rest, |rest|);
    SumOfSlice(u, k, rest, |rest|);
    assert Sum(t, k, k + 1) == Sum(t, k, k) + t[k];
  }

  lemma {:induction false} SumOfPermutation(s: seq<real>, t: seq<real>)
    requires multiset(s) == multiset(t)
    ensures Sum(s, 0, |s|) == Sum(t, 0, |t|)
    decreases |s|
  {
    SamePermutationLength(s, t);
    if |s| > 0 {
      var k := Paired(s, t);
      SumWithout(s, 0);
      SumWithout(t, k);
      assert s[..0] + s[1..] == s[1..];
      SumOfPermutation(s[1..], t[..k] + t[k + 1..]);
    }
  }

  /** The trimmed mean is what is left of the sum of the window when its extremes are taken away, over their number. */
  lemma TrimmedMeanIsKeptSum(s: seq<real>, e: nat)
    requires 2 * e < |s|
    ensures var t := Sort(s);
            TrimmedMean(s, e) == (Sum(s, 0, |s|) - Sum(t, 0, e) - Sum(t, |s| - e, |s|)) / (|s| - 2 * e) as real
  {
    KeptSum(s, e);
    hide Sum, Sort;
  }

  lemma KeptSum(s: seq<real>, e: nat)
    requires 2 * e < |s|
    ensures var t := Sort(s); Sum(t, e, |s| - e) == Sum(s, 0, |s|) - Sum(t, 0, e) - Sum(t, |s| - e, |s|)
  {
    var t := Sort(s);
    SortSorts(s);
    SumOfPermutation(s, t);
    hide Sum, Sort;
    SumSplits(t, 0, e, |s|);
    SumSplits(t, e, |s| - e, |s|);
  }

  lemma QuotientBounds(sum: real, n: real, lo: real, hi: real)
    requires n > 0.0 && lo * n <= sum <= hi * n
    ensures lo <= sum / n <= hi
  {
    var q := sum / n;
    assert q * n == sum;
    FactorSign(q - lo, n);
    FactorSign(hi - q, n);
  }

  lemma FactorSign(x: real, n: real)
    requires n > 0.0 && x * n >= 0.0
    ensures x >= 0.0
  {}

  // ---------------------------------------------------------------- the filter as it runs

  /** One call: the values collected so far and an output when there are `n` of them. */
  function Collect(n: nat, e: nat, pending: seq<real>, x: real): (seq<real>, Option<real>)
    requires 2 * e < n
  {
    var window := pending + [x];
    if |window| == n then ([], Some(TrimmedMean(window, e))) else (window, None)
  }

  /** What a run of calls leaves collected, and what it has put out. */
  function Filtered(n: nat, e: nat, inputs: seq<real>): (seq<real>, seq<real>)
    requires 2 * e < n
    decreases |inputs|
  {
    if |inputs| == 0 then ([], [])
    else
      var (pending, outputs) := Filtered(n, e, inputs[..|inputs| - 1]);
      var (p, out) := Collect(n, e, pending, inputs[|inputs| - 1]);
      (p, if out.Some? then outputs + [out.value] else outputs)
  }

  /** The k-th window of `n` inputs. */
  function Window(n: nat, inputs: seq<real>, k: nat): seq<real> {
    if k * n + n <= |inputs| then inputs[k * n..k * n + n] else []
  }

  /** The filter puts out exactly one value for every `n` inputs, the trimmed mean of those `n`, in order. */
  lemma {:induction false} OneOutputPerWindow(n: nat, e: nat, inputs: seq<real>)
    requires 2 * e < n
    ensures var (pending, outputs) := Filtered(n, e, inputs);
            && |inputs| == |outputs| * n + |pending| && |pending| < n && pending == inputs[|outputs| * n..]
            && forall k :: 0 <= k < |outputs| ==>
                 |Window(n, inputs, k)| == n && outputs[k] == TrimmedMean(Window(n, inputs, k), e)
    decreases |inputs|
  {
    hide TrimmedMean, Window;
    if |inputs| > 0 {
      var m := |inputs| - 1;
      OneOutputPerWindow(n, e, inputs[..m]);
      var (pending, outputs) := Filtered(n, e, inputs[..m]);
      EarlierWindows(n, inputs, m, |outputs|);
      assert pending + [inputs[m]] == inputs[|outputs| * n..];
      if |pending| + 1 == n { LastWindow(n, inputs, |outputs|); }
    }
  }

  lemma EarlierWindows(n: nat, inputs: seq<real>, m: nat, count: nat)
    requires count * n <= m <= |inputs|
    ensures forall k :: 0 <= k < count ==> Window(n, inputs, k) == Window(n, inputs[..m], k)
  {
    forall k | 0 <= k < count ensures Window(n, inputs, k) == Window(n, inputs[..m], k) {
      assert (k + 1) * n <= count * n;
      assert (k + 1) * n == k * n + n;
    }
  }

  lemma LastWindow(n: nat, inputs: seq<real>, k: nat)
    requires |inputs| == k * n + n
    ensures Window(n, inputs, k) == inputs[k * n..] && (k + 1) * n == |inputs| && inputs[(k + 1) * n..] == []
  {}

  /** If no window has more than `e` values outside [lo, hi], no output is outside it. */
  lemma OutputsAreRobust(n: nat, e: nat, inputs: seq<real>, lo: real, hi: real)
    requires 2 * e < n
    requires forall k :: 0 <= k < |inputs| ==> Outliers(Window(n, inputs, k), lo, hi) <= e
    ensures forall k :: 0 <= k < |Filtered(n, e, inputs).1| ==> lo <= Filtered(n, e, inputs).1[k] <= hi
  {
    OneOutputPerWindow(n, e, inputs);
    var outputs := Filtered(n, e, inputs).1;
    forall k | 0 <= k < |outputs| ensures lo <= outputs[k] <= hi {
      WindowsAreFew(|outputs|, n);
      TrimmedMeanIsRobust(Window(n, inputs, k), e, lo, hi);
    }
  }

  lemma WindowsAreFew(count: nat, n: nat)
    requires n > 0
    ensures count <= count * n
  {}

  class Filter {
    /** `EX_NUM_FILTER`, the values cut at each end; the length of `buf` is `TOTAL_NUM_FILTER`. */
    const e: nat
    const buf: array<real>
    var count: nat

    ghost predicate Valid()
      reads this
    {
      2 * e < buf.Length && count < buf.Length
    }

    ghost function Pending(): seq<real>
      requires Valid()
      reads this, buf
    {
      buf[..count]
    }

    constructor (n: nat, e: nat)
      requires 2 * e < n
      ensures Valid() && fresh(buf) && buf.Length == n && this.e == e && Pending() == []
    {
      this.e := e;
      buf := new real[n];
      count := 0;
    }

    method Average() returns (mean: real)
      requires 2 * e < buf.Length
      ensures mean == Sum(buf[..], e, buf.Length - e) / (buf.Length - 2 * e) as real
    {
      var i, total := e, 0.0;
      while i < buf.Length - e
        invariant e <= i <= buf.Length - e && total == Sum(buf[..], e, i)
      {
        total := total + buf[i];
        i := i + 1;
      }
      return total / (buf.Length - 2 * e) as real;
    }

    /** `data_collect`. */
    method Collected(x: real) returns (n: nat)
      requires Valid()
      modifies this, buf
      ensures n == count <= buf.Length && buf[..count] == old(Pending()) + [x]
    {
      buf[count] := x;
      count := count + 1;
      return count;
    }

    /** `filter_result`. */
    method Add(x: real) returns (out: Option<real>)
      requires Valid()
      modifies this, buf
      ensures Valid() && (Pending(), out) == Collect(buf.Length, e, old(Pending()), x)
    {
      hide Sort, Sum, Sorted;
      ghost var window := Pending() + [x];
      var n := Collected(x);
      if n < buf.Length { return None; }
      assert buf[..] == buf[..count];
      SelectionSort(buf);
      var mean := Average();
      count := 0;
      return Some(mean);
    }
  }
}
