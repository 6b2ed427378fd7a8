/**
 * Vertex permutations of the mesh store: `perm[old] == new`, the inverse
 * `inv[perm[i]] == i`, and the scatter of vertex flags to their new slots.
 */
module Permutation {
  import opened MeshTypes
  import opened FaceList

  /** Every entry lies in `[0, n)`. */
  predicate InRange(p: seq<int>, n: int)
  {
    forall i :: 0 <= i < |p| ==> 0 <= p[i] < n
  }

  /** No two positions hold the same entry. */
  predicate Injective(p: seq<int>)
  {
    forall i, j :: 0 <= i < j < |p| ==> p[i] != p[j]
  }

  /** Every value of `[0, n)` occurs. */
  predicate Surjective(p: seq<int>, n: nat)
  {
    forall j :: 0 <= j < n ==> j in p
  }

  /** A bijection of `0..|p|-1` onto itself. */
  predicate IsPermutation(p: seq<int>)
  {
    InRange(p, |p|) && Injective(p)
  }

  /** `inv` undoes `p`: `inv[p[i]] == i` for every position `i`. */
  predicate IsInverse(p: seq<int>, inv: seq<int>)
  {
    |inv| == |p| && InRange(p, |p|) && forall i :: 0 <= i < |p| ==> inv[p[i]] == i
  }

  /** The set of values of `p` has at most `|p|` members, and exactly `|p|` when no value repeats. */
  lemma {:induction false} ElementsCard(p: seq<int>)
    ensures |set x | x in p| <= |p|
    ensures |set x | x in p| == |p| <==> Injective(p)
  {
    if |p| > 0 {
      var q := p[..|p| - 1];
      var x := p[|p| - 1];
      ElementsCard(q);
      assert p == q + [x];
      assert (set y | y in p) == (set y | y in q) + {x};
      if x in q {
        var k :| 0 <= k < |q| && q[k] == x;
        assert p[k] == p[|p| - 1];
      } else {
        if Injective(q) {
          forall i, j | 0 <= i < j < |p|
            ensures p[i] != p[j]
          {
            if j == |p| - 1 {
              assert q[i] in q;
            } else {
              assert q[i] != q[j];
            }
          }
        } else {
          var i, j :| 0 <= i < j < |q| && q[i] == q[j];
          assert p[i] == p[j];
        }
      }
    }
  }

  /** The set `{0, ..., n-1}`. */
  function Range(n: nat): (r: set<int>)
    ensures forall j :: j in r <==> 0 <= j < n
    ensures |r| == n
  {
    if n == 0 then {} else Range(n - 1) + {n - 1}
  }

  /** A sequence of length `n` that hits every value of `[0, n)` repeats none. */
  lemma SurjectiveIsInjective(p: seq<int>)
    requires InRange(p, |p|) && Surjective(p, |p|)
    ensures Injective(p)
  {
    assert (set x | x in p) == Range(|p|);
    ElementsCard(p);
  }

  /** A sequence of length `n` over `[0, n)` that repeats no value hits all of them. */
  lemma InjectiveIsSurjective(p: seq<int>)
    requires InRange(p, |p|) && Injective(p)
    ensures Surjective(p, |p|)
  {
    var n := |p|;
    var image := set x | x in p;
    ElementsCard(p);
    assert image <= Range(n);
    assert image * Range(n) == image;
    assert |Range(n) - image| == 0;
    forall j | 0 <= j < n
      ensures j in p
    {
      assert j !in Range(n) - image;
    }
  }

  /** Relabelling the faces of a mesh by a permutation keeps every face good. */
  lemma RelabelKeepsGood(s: seq<u32>, perm: seq<u32>)
    requires |s| % 3 == 0 && IsPermutation(perm) && AllFacesGood(s, |perm|)
    ensures AllBelow(s, |perm|)
    ensures AllFacesGood(Relabel(s, perm), |perm|)
  {
    forall i | 0 <= i < |s|
      ensures s[i] < |perm|
    {
      assert GoodFace(s, i / 3, |perm|);
    }
    var r := Relabel(s, perm);
    forall f | 0 <= f < |r| / 3
      ensures GoodFace(r, f, |perm|)
    {
      assert GoodFace(s, f, |perm|);
    }
  }

  /** Relabelling by `perm` and then by its inverse gives back the original faces. */
  lemma RelabelInverse(s: seq<u32>, perm: seq<u32>, inv: seq<u32>)
    requires AllBelow(s, |perm|) && IsInverse(perm, inv)
    ensures AllBelow(Relabel(s, perm), |inv|)
    ensures Relabel(Relabel(s, perm), inv) == s
  {
  }

  /**
   * The flag array that mesh_apply_permutation builds: a zeroed array of
   * `cap` slots in which `vals[i]` is written to slot `p[i]`, in order of `i`.
   */
  function Scatter(vals: seq<u32>, p: seq<int>, cap: nat): (r: seq<u32>)
    requires |vals| <= |p| && InRange(p[..|vals|], cap)
    ensures |r| == cap
  {
    if |vals| == 0 then seq(cap, _ => 0)
    else
      var k := |vals| - 1;
      assert p[..k] == p[..|vals|][..k];
      assert p[..|vals|][k] == p[k];
      Scatter(vals[..k], p, cap)[p[k] := vals[k]]
  }

  /**
   * When `p` repeats no target, slot `p[i]` of the scatter holds `vals[i]`,
   * and a slot that no `p[i]` names holds 0.
   */
  lemma {:induction false} ScatterContents(vals: seq<u32>, p: seq<int>, cap: nat)
    requires |vals| <= |p| && InRange(p[..|vals|], cap) && Injective(p[..|vals|])
    ensures forall i :: 0 <= i < |vals| ==> Scatter(vals, p, cap)[p[i]] == vals[i]
    ensures forall j :: 0 <= j < cap && j !in p[..|vals|] ==> Scatter(vals, p, cap)[j] == 0
  {
    if |vals| > 0 {
      var k := |vals| - 1;
      assert p[..k] == p[..|vals|][..k];
      ScatterContents(vals[..k], p, cap);
      forall i | 0 <= i < k
        ensures p[i] != p[k]
      {
        assert p[..|vals|][i] != p[..|vals|][k];
      }
      forall j | 0 <= j < cap && j !in p[..|vals|]
        ensures Scatter(vals, p, cap)[j] == 0
      {
        assert p[..|vals|][k] == p[k];
        assert j !in p[..k];
      }
    }
  }

  /**
   * For a permutation of the vertices, the scattered flags are the old flags
   * moved: vertex `i`'s flag sits at `perm[i]`, and the slots beyond the
   * vertex count stay zero.
   */
  lemma PermutedFlags(vals: seq<u32>, perm: seq<int>, cap: nat)
    requires IsPermutation(perm) && |vals| == |perm| <= cap
    ensures InRange(perm[..|vals|], cap)
    ensures forall i :: 0 <= i < |vals| ==> Scatter(vals, perm, cap)[perm[i]] == vals[i]
    ensures forall j :: |vals| <= j < cap ==> Scatter(vals, perm, cap)[j] == 0
  {
    assert perm[..|vals|] == perm;
    ScatterContents(vals, perm, cap);
  }

  /**
   * The inverse buffer after the fill loop of mesh_invert_permutation has
   * processed the first `i` entries of `perm`, all of them in range: a slot no
   * entry names holds the sentinel UINT32_MAX; a slot holding anything else
   * holds an earlier index that names it; a named slot holds the sentinel
   * only when index UINT32_MAX itself was written, at `n == 2^32`; and the
   * last slot written holds its index.
   */
  ghost predicate FilledUpTo(inv: seq<u32>, perm: seq<u32>, i: nat)
  {
    var n := |perm|;
    && |inv| == n && i <= n <= 0x1_0000_0000
    && InRange(perm[..i], n)
    && (forall j :: 0 <= j < n && j !in perm[..i] ==> inv[j] == U32Max)
    && (forall j :: 0 <= j < n && j in perm[..i] && inv[j] == U32Max ==> i == n == 0x1_0000_0000)
    && (forall j :: 0 <= j < n && inv[j] != U32Max ==> inv[j] < i && perm[inv[j]] == j)
    && (0 < i ==> inv[perm[i - 1]] == i - 1)
  }

  /** A buffer of sentinels is filled up to no entry. */
  lemma FilledStart(inv: seq<u32>, perm: seq<u32>)
    requires |inv| == |perm| <= 0x1_0000_0000 && forall j :: 0 <= j < |inv| ==> inv[j] == U32Max
    ensures FilledUpTo(inv, perm, 0)
  {
  }

  /** Writing index `i` into the slot `perm[i]` names extends the fill by one entry. */
  lemma FilledStep(inv: seq<u32>, perm: seq<u32>, i: nat)
    requires FilledUpTo(inv, perm, i) && i < |perm| && perm[i] < |perm|
    ensures FilledUpTo(inv[perm[i] := i], perm, i + 1)
  {
    var n, p, r := |perm|, perm[i], inv[perm[i] := i];
    assert perm[..i + 1] == perm[..i] + [p];
    forall j | 0 <= j < n && j !in perm[..i + 1]
      ensures r[j] == U32Max
    {
      assert j != p && j !in perm[..i];
    }
    forall j | 0 <= j < n && j in perm[..i + 1] && r[j] == U32Max
      ensures i + 1 == n == 0x1_0000_0000
    {
      if j == p {
        assert i == U32Max;
      } else {
        assert j in perm[..i];
      }
    }
    assert |r| == n && i + 1 <= n <= 0x1_0000_0000;
    assert InRange(perm[..i + 1], n);
    assert forall j :: 0 <= j < n && r[j] != U32Max ==> r[j] < i + 1 && perm[r[j]] == j;
    assert r[perm[i]] == i;
  }

  /**
   * After the whole fill, every slot is off the sentinel exactly when `perm`
   * is a permutation of fewer than 2^32 entries, and the buffer is then its
   * two-sided inverse.
   */
  lemma FilledComplete(inv: seq<u32>, perm: seq<u32>)
    requires FilledUpTo(inv, perm, |perm|)
    ensures (forall j :: 0 <= j < |inv| ==> inv[j] != U32Max) <==> IsPermutation(perm) && |perm| < 0x1_0000_0000
    ensures (forall j :: 0 <= j < |inv| ==> inv[j] != U32Max) ==> IsInverse(perm, inv) && IsInverse(inv, perm)
  {
    var n := |perm|;
    assert perm[..n] == perm;
    if IsPermutation(perm) && n < 0x1_0000_0000 {
      InjectiveIsSurjective(perm);
    }
    var last := if n == 0x1_0000_0000 then perm[n - 1] else 0;
    assert n == 0x1_0000_0000 ==> inv[last] == U32Max;
    if forall j :: 0 <= j < n ==> inv[j] != U32Max {
      assert 0 <= last < n ==> inv[last] != U32Max;
      SurjectiveIsInjective(perm);
      forall i | 0 <= i < n
        ensures inv[perm[i]] == i
      {
        var k := inv[perm[i]];
        assert perm[k] == perm[i];
      }
    }
  }

  /**
   * mesh_invert_permutation: fills `outInv` with the inverse of `perm`, or
   * reports ErrInvalidArg when `perm` is not a bijection of `0..n-1`.
   * Unfilled slots keep the sentinel UINT32_MAX. For `n == 2^32` the last
   * index written is UINT32_MAX itself, so even a genuine permutation is refused.
   */
  method InvertPermutation(perm: seq<u32>, outInv: array<u32>) returns (rc: Status)
    requires outInv.Length == |perm| && |perm| <= 0x1_0000_0000
    modifies outInv
    ensures rc == Ok || rc == ErrInvalidArg
    ensures rc == Ok <==> IsPermutation(perm) && |perm| < 0x1_0000_0000
    ensures rc == Ok ==> IsInverse(perm, outInv[..])
    ensures rc == Ok ==> IsInverse(outInv[..], perm)
  {
    var n := |perm|;
    for i := 0 to n
      invariant forall k :: 0 <= k < i ==> outInv[k] == U32Max
    {
      outInv[i] := U32Max;
    }
    FilledStart(outInv[..], perm);
    for i := 0 to n
      invariant FilledUpTo(outInv[..], perm, i)
    {
      var p := perm[i];
      if p >= n {
        return ErrInvalidArg;
      }
      FilledStep(outInv[..], perm, i);
      ghost var before := outInv[..];
      outInv[p] := i;
      assert outInv[..] == before[p := i];
    }
    FilledComplete(outInv[..], perm);
    for j := 0 to n
      invariant forall k :: 0 <= k < j ==> outInv[k] != U32Max
    {
      if outInv[j] == U32Max {
        return ErrInvalidArg;
      }
    }
    rc := Ok;
  }
}
