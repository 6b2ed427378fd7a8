/**
 * BlurChaos.SplitData: the data is copied, the copy is shuffled in place by a
 * sort with a random comparator, and the first `testCount` rows of the
 * shuffled copy form the test set and the rest the training set.
 *
 * The shuffle's outcome is a parameter: any reordering of the copy, written
 * as a sequence of exchanges (every reordering can be written so).
 */
module BlurChaos {
  import opened Wrappers

  /** Every exchange names two positions of a list of length `n`. */
  predicate SwapsIn(swaps: seq<(int, int)>, n: nat)
  {
    forall k :: 0 <= k < |swaps| ==> 0 <= swaps[k].0 < n && 0 <= swaps[k].1 < n
  }

  /** The entries at `i` and `j` exchanged. */
  function Swap<T>(s: seq<T>, i: nat, j: nat): (r: seq<T>)
    requires i < |s| && j < |s|
    ensures |r| == |s|
  {
    s[i := s[j]][j := s[i]]
  }

  /** The list after the exchanges, performed in order. */
  function ApplySwaps<T>(s: seq<T>, swaps: seq<(int, int)>): (r: seq<T>)
    requires SwapsIn(swaps, |s|)
    ensures |r| == |s|
    decreases |swaps|
  {
    if |swaps| == 0 then s
    else ApplySwaps(Swap(s, swaps[0].0, swaps[0].1), swaps[1..])
  }

  /** Exchanges only reorder: the same rows with the same multiplicities. */
  lemma {:induction false} ApplySwapsPermutes<T>(s: seq<T>, swaps: seq<(int, int)>)
    requires SwapsIn(swaps, |s|)
    ensures multiset(ApplySwaps(s, swaps)) == multiset(s)
    decreases |swaps|
  {
    if |swaps| > 0 {
      var t := Swap(s, swaps[0].0, swaps[0].1);
      ApplySwapsPermutes(t, swaps[1..]);
    }
  }

  /** The random-comparator sort, performed in place on the copy. */
  method Shuffle<T>(a: array<T>, swaps: seq<(int, int)>)
    requires SwapsIn(swaps, a.Length)
    modifies a
    ensures a[..] == ApplySwaps(old(a[..]), swaps)
  {
    for k := 0 to |swaps|
      invariant SwapsIn(swaps[k..], a.Length)
      invariant ApplySwaps(a[..], swaps[k..]) == ApplySwaps(old(a[..]), swaps)
    {
      var (i, j) := swaps[k];
      assert swaps[k..][1..] == swaps[k + 1..];
      ghost var before := a[..];
      a[i], a[j] := a[j], a[i];
      assert a[..] == Swap(before, i, j);
    }
  }

  /** Integer division truncating toward zero, as a C# cast of a quotient does. */
  function TruncDiv(p: int, den: int): (q: int)
    requires den > 0
    ensures p >= 0 ==> 0 <= q && q * den <= p < q * den + den
    ensures p < 0 ==> q <= 0 && p < q * den + den && q * den - den < p
  {
    var a := if p >= 0 then p else -p;
    var q, r := a / den, a % den;
    assert a == q * den + r && 0 <= r < den;
    if p >= 0 then q else -q
  }

  /** `(int)(n * fraction)` for the fraction `num / den`: the product truncated toward zero. */
  function TestCount(n: nat, num: int, den: int): (c: int)
    requires den > 0
    ensures 0 <= num <= den ==> 0 <= c <= n
    ensures num >= 0 ==> c * den <= n * num < c * den + den
    ensures num < 0 ==> c <= 0
  {
    var c := TruncDiv(n * num, den);
    assert num >= 0 ==> n * num >= 0 by {
      if num >= 0 {
        MulMono(n, 0, num);
      }
    }
    assert num < 0 ==> n * num <= 0 by {
      if num < 0 {
        MulMono(n, num, 0);
      }
    }
    assert 0 <= num <= den ==> c <= n by {
      if 0 <= num <= den && c > n {
        MulMono(n, num, den);
        MulMono(den, n + 1, c);
      }
    }
    c
  }

  /** Multiplying by a natural keeps order. */
  lemma MulMono(k: nat, a: int, b: int)
    requires a <= b
    ensures k * a <= k * b
  {
  }

  /**
   * SplitData over rows of type `T`, with the test fraction `num / den`:
   * `GetRange` throws when the test count falls outside `[0, n]`, which the
   * none result stands for. Otherwise the test set followed by the training
   * set is the shuffled copy, so every row lands in exactly one of them.
   */
  method SplitData<T>(data: seq<T>, swaps: seq<(int, int)>, num: int, den: int)
    returns (r: Option<(seq<T>, seq<T>)>)
    requires den > 0 && SwapsIn(swaps, |data|)
    ensures r.Some? <==> 0 <= TestCount(|data|, num, den) <= |data|
    ensures r.Some? ==>
      var (train, test) := r.value;
      && |test| == TestCount(|data|, num, den)
      && |train| == |data| - TestCount(|data|, num, den)
      && test + train == ApplySwaps(data, swaps)
      && multiset(test + train) == multiset(data)
  {
    var shuffled := new T[|data|](i requires 0 <= i < |data| => data[i]);
    assert shuffled[..] == data;
    Shuffle(shuffled, swaps);
    var n := shuffled.Length;
    var testCount := TestCount(n, num, den);
    if testCount < 0 || testCount > n {
      return None;
    }
    var testSet := shuffled[..testCount];
    var trainSet := shuffled[testCount..];
    assert testSet + trainSet == shuffled[..];
    ApplySwapsPermutes(data, swaps);
    return Some((trainSet, testSet));
  }

  /** The exact fraction 3/10, standing for the `0.3f` BlurChaos passes, gives `floor(3n / 10)` test rows, never more than `n`. */
  lemma ThirtyPercent(n: nat)
    ensures TestCount(n, 3, 10) == (3 * n) / 10 <= n
  {
  }
}
