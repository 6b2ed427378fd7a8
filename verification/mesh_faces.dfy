/**
 * The face buffer of the mesh store as a flat sequence: face `f` occupies the
 * entries `3*f`, `3*f+1` and `3*f+2`.
 */
module FaceList {
  import opened MeshTypes

  /** Face `f` of a flat face sequence. */
  function Triple(s: seq<u32>, f: nat): (t: seq<u32>)
    requires 3 * f + 3 <= |s|
    ensures |t| == 3 && t[0] == s[3 * f] && t[1] == s[3 * f + 1] && t[2] == s[3 * f + 2]
  {
    s[3 * f .. 3 * f + 3]
  }

  /** `3 * fc` entries make up exactly `fc` faces. */
  lemma FaceCountOf(fc: nat)
    ensures (3 * fc) % 3 == 0 && (3 * fc) / 3 == fc
  {
  }

  /** Every entry is a vertex id below `n`. */
  predicate AllBelow(s: seq<u32>, n: nat)
  {
    forall i :: 0 <= i < |s| ==> s[i] < n
  }

  /** The three corners of face `f` are vertex ids below `n`. */
  predicate TripleBelow(s: seq<u32>, f: nat, n: nat)
    requires 3 * f + 3 <= |s|
  {
    s[3 * f] < n && s[3 * f + 1] < n && s[3 * f + 2] < n
  }

  /**
   * The index of the first face that has a corner at or above `n`, or the
   * number of faces when there is none.
   */
  function FirstOutOfRange(s: seq<u32>, n: nat): (r: nat)
    requires |s| % 3 == 0
    ensures 3 * r <= |s|
    ensures AllBelow(s[..3 * r], n)
    ensures 3 * r < |s| ==> !TripleBelow(s, r, n)
    decreases |s|
  {
    if |s| == 0 then 0
    else if s[0] < n && s[1] < n && s[2] < n then
      var rest := FirstOutOfRange(s[3..], n);
      assert s[..3 * (rest + 1)] == s[..3] + s[3..][..3 * rest];
      assert 3 * rest < |s[3..]| ==> s[3..][3 * rest] == s[3 * (rest + 1)];
      1 + rest
    else 0
  }

  /** No face has a corner out of range exactly when every entry is in range. */
  lemma FirstOutOfRangeAll(s: seq<u32>, n: nat)
    requires |s| % 3 == 0
    ensures FirstOutOfRange(s, n) == |s| / 3 <==> AllBelow(s, n)
  {
    var r := FirstOutOfRange(s, n);
    if r == |s| / 3 {
      assert s[..3 * r] == s;
    } else if AllBelow(s, n) {
      assert TripleBelow(s, r, n);
    }
  }

  /** A face index before which all corners are in range and at which one is not is the first out of range. */
  lemma FirstOutOfRangeAt(s: seq<u32>, n: nat, f: nat)
    requires |s| % 3 == 0 && 3 * f <= |s| && AllBelow(s[..3 * f], n)
    requires 3 * f < |s| ==> !TripleBelow(s, f, n)
    ensures FirstOutOfRange(s, n) == f
  {
    var r := FirstOutOfRange(s, n);
    assert r < f ==> TripleBelow(s, r, n) by {
      if r < f {
        assert s[..3 * f][3 * r] == s[3 * r] && s[..3 * f][3 * r + 2] == s[3 * r + 2];
      }
    }
  }

  /** Every entry shifted by `d` with 32-bit wrap-around. */
  function Shift(s: seq<u32>, d: u32): (r: seq<u32>)
    ensures |r| == |s|
    ensures forall i :: 0 <= i < |s| ==> r[i] == AddU32(s[i], d)
  {
    seq(|s|, i requires 0 <= i < |s| => AddU32(s[i], d))
  }

  /** A block whose entries are below `bn`, shifted by `d`, lands in `[d, d + bn)` without wrapping. */
  lemma ShiftInRange(s: seq<u32>, d: u32, bn: nat)
    requires AllBelow(s, bn) && d + bn <= 0x1_0000_0000
    ensures AllBelow(Shift(s, d), d + bn)
    ensures forall i :: 0 <= i < |s| ==> Shift(s, d)[i] == s[i] + d
  {
  }

  /** Every entry `x` replaced by `perm[x]`. */
  function Relabel(s: seq<u32>, perm: seq<u32>): (r: seq<u32>)
    requires AllBelow(s, |perm|)
    ensures |r| == |s|
    ensures forall i :: 0 <= i < |s| ==> r[i] == perm[s[i]]
  {
    seq(|s|, i requires 0 <= i < |s| => perm[s[i]])
  }

  /** The first `m` entries of `cur` are those of `orig` relabelled by `perm`; the rest are those of `orig`. */
  ghost predicate RelabelledUpTo(cur: seq<u32>, orig: seq<u32>, perm: seq<u32>, m: nat)
  {
    && |cur| == |orig| && m <= |orig|
    && (forall i :: 0 <= i < m ==> orig[i] < |perm| && cur[i] == perm[orig[i]])
    && (forall i :: m <= i < |orig| ==> cur[i] == orig[i])
  }

  /** Relabelling the next triple extends a relabelled prefix by three entries. */
  lemma RelabelStep(cur: seq<u32>, orig: seq<u32>, perm: seq<u32>, f: nat)
    requires RelabelledUpTo(cur, orig, perm, 3 * f) && 3 * f + 3 <= |orig| && TripleBelow(orig, f, |perm|)
    ensures RelabelledUpTo(
      cur[3 * f := perm[orig[3 * f]]][3 * f + 1 := perm[orig[3 * f + 1]]][3 * f + 2 := perm[orig[3 * f + 2]]],
      orig, perm, 3 * f + 3)
  {
  }

  /**
   * A buffer whose first `3 * k` entries are relabelled and whose other
   * entries are untouched holds, in its first `n`, the relabelled prefix
   * followed by the rest.
   */
  lemma RelabelledPrefix(cur: seq<u32>, orig: seq<u32>, perm: seq<u32>, k: nat, n: nat)
    requires RelabelledUpTo(cur, orig, perm, 3 * k) && 3 * k <= n <= |orig|
    ensures AllBelow(orig[..3 * k], |perm|)
    ensures cur[..n] == Relabel(orig[..3 * k], perm) + orig[3 * k .. n]
  {
  }

  /**
   * Swap-with-last removal of face `fid`: the last face moves into slot `fid`
   * and the sequence loses its final triple.
   */
  function SwapRemove(s: seq<u32>, fid: nat): (r: seq<u32>)
    requires |s| % 3 == 0 && 3 * fid + 3 <= |s|
    ensures |r| == |s| - 3
    ensures 3 * fid + 3 < |s| ==> Triple(r, fid) == Triple(s, |s| / 3 - 1)
    ensures forall i :: 0 <= i < |r| && (i < 3 * fid || 3 * fid + 3 <= i) ==> r[i] == s[i]
  {
    var last := |s| / 3 - 1;
    if fid == last then s[..3 * last]
    else s[..3 * fid] + s[3 * last .. 3 * last + 3] + s[3 * fid + 3 .. 3 * last]
  }

  /**
   * The in-place form of SwapRemove: `r` keeps every entry of `s` outside
   * triple `fid`, holds the last triple of `s` in triple `fid` (unless that
   * is the last one) and is three entries shorter.
   */
  lemma SwapRemoveInPlace(s: seq<u32>, r: seq<u32>, fid: nat)
    requires |s| % 3 == 0 && 3 * fid + 3 <= |s| && |r| == |s| - 3
    requires forall i :: 0 <= i < |r| && (i < 3 * fid || 3 * fid + 3 <= i) ==> r[i] == s[i]
    requires 3 * fid + 3 < |s| ==> r[3 * fid] == s[|s| - 3] && r[3 * fid + 1] == s[|s| - 2] && r[3 * fid + 2] == s[|s| - 1]
    ensures r == SwapRemove(s, fid)
  {
    var t := SwapRemove(s, fid);
    forall i | 0 <= i < |r|
      ensures r[i] == t[i]
    {
      if 3 * fid <= i < 3 * fid + 3 {
        assert Triple(t, fid) == Triple(s, |s| / 3 - 1);
      }
    }
  }

  /** A face whose corners are in range and pairwise distinct. */
  predicate GoodFace(s: seq<u32>, f: nat, n: nat)
    requires 3 * f + 3 <= |s|
  {
    TripleBelow(s, f, n) && s[3 * f] != s[3 * f + 1] && s[3 * f + 1] != s[3 * f + 2] && s[3 * f + 2] != s[3 * f]
  }

  /** Every face of `s` is a good face for a mesh of `n` vertices. */
  predicate AllFacesGood(s: seq<u32>, n: nat)
    requires |s| % 3 == 0
  {
    forall f :: 0 <= f < |s| / 3 ==> GoodFace(s, f, n)
  }

  /** Removing a face keeps every remaining face good. */
  lemma SwapRemoveKeepsGood(s: seq<u32>, fid: nat, n: nat)
    requires |s| % 3 == 0 && 3 * fid + 3 <= |s|
    requires AllFacesGood(s, n)
    ensures AllFacesGood(SwapRemove(s, fid), n)
  {
    var r := SwapRemove(s, fid);
    forall f | 0 <= f < |r| / 3
      ensures GoodFace(r, f, n)
    {
      if f == fid {
        assert GoodFace(s, |s| / 3 - 1, n);
      } else {
        assert GoodFace(s, f, n);
      }
    }
  }

  /** Appending a good face keeps every face good. */
  lemma AppendKeepsGood(s: seq<u32>, v0: u32, v1: u32, v2: u32, n: nat)
    requires |s| % 3 == 0 && AllFacesGood(s, n)
    requires v0 < n && v1 < n && v2 < n && v0 != v1 && v1 != v2 && v2 != v0
    ensures AllFacesGood(s + [v0, v1, v2], n)
  {
    var r := s + [v0, v1, v2];
    forall f | 0 <= f < |r| / 3
      ensures GoodFace(r, f, n)
    {
      if f < |s| / 3 {
        assert GoodFace(s, f, n);
      }
    }
  }

  /**
   * The vertex-range guard of mesh_add_face does not look at repeated corners:
   * a face it accepts can still be one that mesh_check_consistency rejects.
   */
  lemma InRangeFaceNeedNotBeGood()
    ensures var s: seq<u32> := [0, 0, 0]; TripleBelow(s, 0, 1) && !GoodFace(s, 0, 1)
  {
  }
}
