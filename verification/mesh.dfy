/**
 * The TopoCrypt triangle-mesh store: a vertex-flag buffer and a face buffer of
 * flat vertex-id triples, both grown by doubling and updated in place.
 */
module TopoMesh {
  import opened MeshTypes
  import opened Capacity
  import opened FaceList
  import opened Permutation

  class Mesh {
    var vertexCapacity: nat
    var faceCapacity: nat
    var vertexCount: nat
    var faceCount: nat
    /** One flag word per vertex slot; `vertexCapacity` slots. */
    var vertexFlags: array<u32>
    /** Face `f` is `faces[3*f .. 3*f+3]`; `3 * faceCapacity` slots. */
    var faces: array<u32>
    ghost var Repr: set<object>

    /** The buffers match the recorded capacities. */
    ghost predicate Allocated()
      reads this
    {
      && this in Repr && vertexFlags in Repr && faces in Repr
      && vertexFlags != faces
      && vertexFlags.Length == vertexCapacity
      && faces.Length == 3 * faceCapacity
      && vertexCapacity <= U32Max && faceCapacity <= U32Max
    }

    /** The object invariant every public operation keeps. */
    ghost predicate Valid()
      reads this
    {
      Allocated() && vertexCount <= vertexCapacity && faceCount <= faceCapacity
    }

    /** The flags of the live vertices `0 .. vertexCount-1`. */
    ghost function Flags(): (s: seq<u32>)
      reads this, vertexFlags
      requires vertexCount <= vertexFlags.Length
      ensures |s| == vertexCount
    {
      vertexFlags[..vertexCount]
    }

    /** The live faces as a flat sequence of `3 * faceCount` vertex ids. */
    ghost function FaceData(): (s: seq<u32>)
      reads this, faces
      requires 3 * faceCount <= faces.Length
      ensures |s| == 3 * faceCount
    {
      faces[..3 * faceCount]
    }

    /** mesh_create: an empty mesh whose buffers are pre-grown to the requested capacities. */
    constructor (vertexCap: u32, faceCap: u32)
      requires vertexCap <= MaxCapacity && faceCap <= MaxCapacity
      ensures Valid() && fresh(Repr)
      ensures vertexCount == 0 && faceCount == 0
      ensures vertexCapacity == GrownCapacity(0, vertexCap)
      ensures faceCapacity == GrownCapacity(0, faceCap)
      ensures forall i :: 0 <= i < vertexFlags.Length ==> vertexFlags[i] == 0
      ensures forall i :: 0 <= i < faces.Length ==> faces[i] == 0
    {
      vertexCapacity, faceCapacity := 0, 0;
      vertexCount, faceCount := 0, 0;
      vertexFlags := new u32[0];
      faces := new u32[0];
      new;
      Repr := {this, vertexFlags, faces};
      if vertexCap != 0 {
        EnsureVertexCapacity(vertexCap);
      }
      if faceCap != 0 {
        EnsureFaceCapacity(faceCap);
      }
    }

    /**
     * ensure_vertex_capacity: grows the flag buffer to GrownCapacity, keeping the
     * old slots and zero-filling the new ones.
     */
    method EnsureVertexCapacity(minCap: nat)
      requires Valid() && minCap <= MaxCapacity
      modifies Repr
      ensures Valid() && fresh(Repr - old(Repr))
      ensures vertexCapacity == GrownCapacity(old(vertexCapacity), minCap)
      ensures vertexFlags[..old(vertexCapacity)] == old(vertexFlags[..])
      ensures forall i :: old(vertexCapacity) <= i < vertexCapacity ==> vertexFlags[i] == 0
      ensures vertexCount == old(vertexCount) && faceCount == old(faceCount)
      ensures faceCapacity == old(faceCapacity) && faces == old(faces) && unchanged(faces)
    {
      if vertexCapacity >= minCap {
        return;
      }
      var newcap := FirstGrowth(vertexCapacity);
      while newcap < minCap
        invariant newcap > 0
        invariant Doubling(newcap, minCap) == Doubling(FirstGrowth(vertexCapacity), minCap)
        decreases minCap - newcap
      {
        newcap := newcap * 2;
      }
      var nv := new u32[newcap](_ => 0);
      for i := 0 to vertexCapacity
        modifies nv
        invariant nv[..i] == vertexFlags[..i]
        invariant forall k :: vertexCapacity <= k < newcap ==> nv[k] == 0
      {
        nv[i] := vertexFlags[i];
      }
      vertexFlags := nv;
      vertexCapacity := newcap;
      Repr := Repr + {vertexFlags};
    }

    /**
     * ensure_face_capacity: grows the face buffer to GrownCapacity faces, keeping
     * the old triples and zero-filling the new ones.
     */
    method EnsureFaceCapacity(minCap: nat)
      requires Valid() && minCap <= MaxCapacity
      modifies Repr
      ensures Valid() && fresh(Repr - old(Repr))
      ensures faceCapacity == GrownCapacity(old(faceCapacity), minCap)
      ensures faces[..3 * old(faceCapacity)] == old(faces[..])
      ensures forall i :: 3 * old(faceCapacity) <= i < 3 * faceCapacity ==> faces[i] == 0
      ensures vertexCount == old(vertexCount) && faceCount == old(faceCount)
      ensures vertexCapacity == old(vertexCapacity) && vertexFlags == old(vertexFlags)
      ensures unchanged(vertexFlags)
    {
      if faceCapacity >= minCap {
        return;
      }
      var newcap := FirstGrowth(faceCapacity);
      while newcap < minCap
        invariant newcap > 0
        invariant Doubling(newcap, minCap) == Doubling(FirstGrowth(faceCapacity), minCap)
        decreases minCap - newcap
      {
        newcap := newcap * 2;
      }
      var nf := new u32[3 * newcap](_ => 0);
      for i := 0 to 3 * faceCapacity
        modifies nf
        invariant nf[..i] == faces[..i]
        invariant forall k :: 3 * faceCapacity <= k < 3 * newcap ==> nf[k] == 0
      {
        nf[i] := faces[i];
      }
      faces := nf;
      faceCapacity := newcap;
      Repr := Repr + {faces};
    }

    /** mesh_vertex_count */
    function VertexCount(): (n: u32)
      reads this, Repr
      requires Valid()
      ensures n == |Flags()|
    {
      vertexCount
    }

    /** mesh_face_count */
    function FaceCount(): (n: u32)
      reads this, Repr
      requires Valid()
      ensures 3 * n == |FaceData()|
    {
      faceCount
    }

    /**
     * mesh_add_vertex: appends a vertex with flag 0 and reports its id, which is
     * the old vertex count.
     */
    method AddVertex() returns (vid: u32)
      requires Valid() && vertexCount < MaxCapacity
      modifies Repr
      ensures Valid() && fresh(Repr - old(Repr))
      ensures vid == old(vertexCount) && vertexCount == old(vertexCount) + 1
      ensures Flags() == old(Flags()) + [0]
      ensures vertexCapacity == GrownCapacity(old(vertexCapacity), old(vertexCount) + 1)
      ensures faceCount == old(faceCount) && faceCapacity == old(faceCapacity)
      ensures faces == old(faces) && unchanged(faces) && FaceData() == old(FaceData())
    {
      EnsureVertexCapacity(vertexCount + 1);
      vid := vertexCount;
      vertexCount := vertexCount + 1;
      vertexFlags[vid] := 0;
    }

    /** mesh_set_vertex_flag: overwrites the flag of a live vertex. */
    method SetVertexFlag(vid: u32, flags: u32) returns (rc: Status)
      requires Valid()
      modifies vertexFlags
      ensures Valid()
      ensures rc == (if vid < vertexCount then Ok else ErrNotFound)
      ensures Flags() == if rc == Ok then old(Flags())[vid := flags] else old(Flags())
      ensures forall i :: vertexCount <= i < vertexCapacity ==> vertexFlags[i] == old(vertexFlags[i])
    {
      if vid >= vertexCount {
        return ErrNotFound;
      }
      vertexFlags[vid] := flags;
      rc := Ok;
    }

    /** mesh_get_vertex_flag: reads the flag of a live vertex. */
    method GetVertexFlag(vid: u32) returns (rc: Status, flags: u32)
      requires Valid()
      ensures rc == (if vid < vertexCount then Ok else ErrNotFound)
      ensures rc == Ok ==> flags == Flags()[vid]
    {
      if vid >= vertexCount {
        return ErrNotFound, 0;
      }
      rc, flags := Ok, vertexFlags[vid];
    }

    /**
     * mesh_add_face: appends the triple `(v0, v1, v2)` when all three are live
     * vertices, and reports its face id, the old face count. Repeated corners
     * are not rejected.
     */
    method AddFace(v0: u32, v1: u32, v2: u32) returns (rc: Status, fid: u32)
      requires Valid() && faceCount < MaxFaces
      modifies Repr
      ensures Valid() && fresh(Repr - old(Repr))
      ensures rc == (if v0 < vertexCount && v1 < vertexCount && v2 < vertexCount then Ok else ErrInvalidArg)
      ensures rc == Ok ==> fid == old(faceCount) && faceCount == old(faceCount) + 1
      ensures rc == Ok ==> FaceData() == old(FaceData()) + [v0, v1, v2]
      ensures rc == Ok ==> faceCapacity == GrownCapacity(old(faceCapacity), old(faceCount) + 1)
      ensures rc != Ok ==> faceCount == old(faceCount) && faceCapacity == old(faceCapacity)
      ensures rc != Ok ==> faces == old(faces) && unchanged(faces)
      ensures vertexCount == old(vertexCount) && vertexCapacity == old(vertexCapacity)
      ensures vertexFlags == old(vertexFlags) && unchanged(vertexFlags)
    {
      if v0 >= vertexCount || v1 >= vertexCount || v2 >= vertexCount {
        return ErrInvalidArg, 0;
      }
      EnsureFaceCapacity(faceCount + 1);
      fid := faceCount;
      faceCount := faceCount + 1;
      var idx := fid * 3;
      faces[idx] := v0;
      faces[idx + 1] := v1;
      faces[idx + 2] := v2;
      assert FaceData() == old(FaceData()) + [v0, v1, v2];
      rc := Ok;
    }

    /**
     * mesh_remove_face: removes face `fid` by moving the last face into its
     * slot, so the face ids stay contiguous.
     */
    method RemoveFace(fid: u32) returns (rc: Status)
      requires Valid()
      modifies this`faceCount, faces
      ensures Valid()
      ensures rc == (if fid < old(faceCount) then Ok else ErrNotFound)
      ensures rc == Ok ==> faceCount == old(faceCount) - 1
      ensures rc == Ok ==> FaceData() == SwapRemove(old(FaceData()), fid)
      ensures rc != Ok ==> faceCount == old(faceCount) && unchanged(faces)
    {
      if fid >= faceCount {
        return ErrNotFound;
      }
      var last := faceCount - 1;
      if fid != last {
        var dst := fid * 3;
        var src := last * 3;
        faces[dst] := faces[src];
        faces[dst + 1] := faces[src + 1];
        faces[dst + 2] := faces[src + 2];
      }
      faceCount := faceCount - 1;
      SwapRemoveInPlace(old(FaceData()), FaceData(), fid);
      rc := Ok;
    }

    /** The vertex phase of mesh_attach_local_block: `count` calls of mesh_add_vertex. */
    method AddZeroVertices(count: nat)
      requires Valid() && vertexCount + count <= MaxCapacity
      modifies Repr
      ensures Valid() && fresh(Repr - old(Repr))
      ensures vertexCount == old(vertexCount) + count
      ensures Flags() == old(Flags()) + seq(count, _ => 0)
      ensures vertexCapacity == GrownCapacity(old(vertexCapacity), vertexCount)
      ensures faceCount == old(faceCount) && faceCapacity == old(faceCapacity)
      ensures faces == old(faces) && unchanged(faces)
    {
      var i := 0;
      while i < count
        invariant Valid() && fresh(Repr - old(Repr))
        invariant 0 <= i <= count
        invariant vertexCount == old(vertexCount) + i
        invariant Flags() == old(Flags()) + seq(i, _ => 0)
        invariant vertexCapacity == GrownCapacity(old(vertexCapacity), vertexCount)
        invariant faceCount == old(faceCount) && faceCapacity == old(faceCapacity)
        invariant faces == old(faces) && unchanged(faces)
      {
        GrowOneAtATime(old(vertexCapacity), vertexCount);
        var _ := AddVertex();
        assert seq(i + 1, _ => 0) == seq(i, _ => 0) + [0];
        i := i + 1;
      }
    }

    /** The flag-copy phase of mesh_attach_local_block: the block's flags land from vertex `at` on. */
    method CopyBlockFlags(block: Mesh, at: nat)
      requires Valid() && block.Valid() && Repr !! block.Repr
      requires at + block.vertexCount == vertexCount
      modifies vertexFlags
      ensures Valid()
      ensures Flags() == old(Flags())[..at] + block.Flags()
    {
      for i := 0 to block.vertexCount
        invariant Valid()
        invariant Flags()[..at] == old(Flags())[..at]
        invariant forall j :: 0 <= j < i ==> vertexFlags[at + j] == block.vertexFlags[j]
      {
        vertexFlags[at + i] := block.vertexFlags[i];
      }
      assert Flags() == old(Flags())[..at] + block.Flags();
    }

    /**
     * One round of the face phase of mesh_attach_local_block: the triple
     * `(a, b, c)`, which is triple `f` of `s`, goes through mesh_add_face;
     * on success the appended faces grow from `s[..3 * f]` to `s[..3 * f + 3]`.
     */
    method AddTripleOf(a: u32, b: u32, c: u32, ghost s: seq<u32>, ghost f: nat, ghost prior: seq<u32>, ghost base: nat)
      returns (ok: bool)
      requires Valid() && faceCount < MaxFaces
      requires 3 * f + 3 <= |s| && a == s[3 * f] && b == s[3 * f + 1] && c == s[3 * f + 2]
      requires FaceData() == prior + s[..3 * f] && AllBelow(s[..3 * f], vertexCount)
      requires faceCapacity == GrownCapacity(base, faceCount)
      modifies Repr
      ensures Valid() && fresh(Repr - old(Repr))
      ensures ok == TripleBelow(s, f, vertexCount)
      ensures ok ==> faceCount == old(faceCount) + 1 && FaceData() == prior + s[..3 * (f + 1)]
      ensures ok ==> AllBelow(s[..3 * (f + 1)], vertexCount)
      ensures !ok ==> faceCount == old(faceCount) && FaceData() == prior + s[..3 * f]
      ensures faceCapacity == GrownCapacity(base, faceCount)
      ensures vertexCount == old(vertexCount) && vertexCapacity == old(vertexCapacity)
      ensures vertexFlags == old(vertexFlags) && unchanged(vertexFlags)
    {
      GrowOneAtATime(base, faceCount);
      var r, _ := AddFace(a, b, c);
      ok := r == Ok;
      if ok {
        assert s[..3 * (f + 1)] == s[..3 * f] + [a, b, c];
      }
    }

    /**
     * The face phase of mesh_attach_local_block: the first `count` triples of
     * `src`, shifted by `shift` with wrap-around, are added one by one until
     * one has a corner that is not a live vertex.
     */
    method AppendShiftedFaces(src: array<u32>, count: nat, shift: u32) returns (rc: Status)
      requires Valid() && src !in Repr && 3 * count <= src.Length
      requires faceCount + count <= MaxFaces
      modifies Repr
      ensures Valid() && fresh(Repr - old(Repr))
      ensures vertexCount == old(vertexCount) && vertexCapacity == old(vertexCapacity)
      ensures vertexFlags == old(vertexFlags) && unchanged(vertexFlags)
      ensures
        var shifted := Shift(src[..3 * count], shift);
        var k := FirstOutOfRange(shifted, vertexCount);
        && faceCount == old(faceCount) + k
        && FaceData() == old(FaceData()) + shifted[..3 * k]
        && faceCapacity == GrownCapacity(old(faceCapacity), faceCount)
        && rc == (if k == count then Ok else ErrInvalidArg)
    {
      ghost var shifted := Shift(src[..3 * count], shift);
      var f := 0;
      var stopped := false;
      while f < count && !stopped
        invariant Valid() && fresh(Repr - old(Repr)) && src !in Repr
        invariant f <= count
        invariant stopped ==> f < count && !TripleBelow(shifted, f, vertexCount)
        invariant AllBelow(shifted[..3 * f], vertexCount)
        invariant faceCount == old(faceCount) + f
        invariant FaceData() == old(FaceData()) + shifted[..3 * f]
        invariant faceCapacity == GrownCapacity(old(faceCapacity), faceCount)
        invariant vertexCount == old(vertexCount) && vertexCapacity == old(vertexCapacity)
        invariant vertexFlags == old(vertexFlags) && unchanged(vertexFlags)
        decreases count - f, if stopped then 0 else 1
      {
        var idx := f * 3;
        var a := AddU32(src[idx], shift);
        var b := AddU32(src[idx + 1], shift);
        var c := AddU32(src[idx + 2], shift);
        var ok := AddTripleOf(a, b, c, shifted, f, old(FaceData()), old(faceCapacity));
        if ok {
          f := f + 1;
        } else {
          stopped := true;
        }
      }
      FirstOutOfRangeAt(shifted, vertexCount, f);
      rc := if stopped then ErrInvalidArg else Ok;
    }

    /**
     * mesh_attach_local_block: appends the block's vertices (with their flags)
     * and then its faces, each corner shifted by the old vertex count with
     * 32-bit wrap-around. The attach edge is not used. A block face whose
     * shifted corner is not a live vertex stops the append with ErrInvalidArg,
     * leaving the vertices and the faces appended before it in place.
     */
    method AttachLocalBlock(block: Mesh, attachV0: u32, attachV1: u32) returns (rc: Status, faceStart: u32)
      requires Valid() && block.Valid() && Repr !! block.Repr
      requires vertexCount + block.vertexCount <= MaxCapacity
      requires faceCount + block.faceCount <= MaxFaces
      modifies Repr
      ensures Valid() && fresh(Repr - old(Repr))
      ensures unchanged(block) && unchanged(block.vertexFlags) && unchanged(block.faces)
      ensures vertexCount == old(vertexCount) + block.vertexCount
      ensures Flags() == old(Flags()) + block.Flags()
      ensures vertexCapacity == GrownCapacity(old(vertexCapacity), vertexCount)
      ensures
        var shifted := Shift(block.FaceData(), old(vertexCount));
        var k := FirstOutOfRange(shifted, vertexCount);
        && faceCount == old(faceCount) + k
        && FaceData() == old(FaceData()) + shifted[..3 * k]
        && faceCapacity == GrownCapacity(old(faceCapacity), faceCount)
        && rc == (if k == block.faceCount then Ok else ErrInvalidArg)
      ensures rc == Ok ==> faceStart == old(faceCount)
    {
      ghost var faces0 := FaceData();
      var before := vertexCount;
      AddZeroVertices(block.vertexCount);
      assert (old(Flags()) + seq(block.vertexCount, _ => 0))[..before] == old(Flags());
      CopyBlockFlags(block, before);
      assert FaceData() == faces0;
      var start := faceCount;
      rc := AppendShiftedFaces(block.faces, block.faceCount, before);
      faceStart := if rc == Ok then start else 0;
    }

    /**
     * The face-rewrite loop of mesh_apply_permutation: faces are relabelled in
     * order until one has a corner at or above `|perm|`; the earlier faces stay
     * relabelled.
     */
    method RelabelFaces(perm: seq<u32>) returns (complete: bool)
      requires Valid()
      modifies faces
      ensures Valid()
      ensures
        var k := FirstOutOfRange(old(FaceData()), |perm|);
        && FaceData() == Relabel(old(FaceData())[..3 * k], perm) + old(FaceData())[3 * k..]
        && (complete <==> k == faceCount)
    {
      ghost var faces0 := FaceData();
      ghost var buffer0 := faces[..];
      var n := |perm|;
      var f := 0;
      var stopped := false;
      while f < faceCount && !stopped
        invariant f <= faceCount
        invariant stopped ==> f < faceCount && !TripleBelow(buffer0, f, n)
        invariant RelabelledUpTo(faces[..], buffer0, perm, 3 * f)
        decreases faceCount - f, if stopped then 0 else 1
      {
        var idx := f * 3;
        var a, b, c := faces[idx], faces[idx + 1], faces[idx + 2];
        if a >= n || b >= n || c >= n {
          stopped := true;
        } else {
          ghost var cur: seq<u32> := faces[..];
          RelabelStep(cur, buffer0, perm, f);
          faces[idx], faces[idx + 1], faces[idx + 2] := perm[a], perm[b], perm[c];
          assert faces[..] == cur[idx := perm[a]][idx + 1 := perm[b]][idx + 2 := perm[c]];
          f := f + 1;
        }
      }
      complete := !stopped;
      RelabelledPrefix(faces[..], buffer0, perm, f, 3 * faceCount);
      assert faces0[..3 * f] == buffer0[..3 * f];
      FirstOutOfRangeAt(faces0, n, f);
    }

    /**
     * The flag phase of mesh_apply_permutation: the flags are scattered into a
     * fresh zeroed buffer; a target at or above the capacity aborts and keeps
     * the old buffer.
     */
    method ScatterFlags(perm: seq<u32>) returns (rc: Status)
      requires Valid() && |perm| == vertexCount
      modifies this
      ensures Valid() && fresh(Repr - old(Repr))
      ensures vertexCount == old(vertexCount) && faceCount == old(faceCount)
      ensures vertexCapacity == old(vertexCapacity) && faceCapacity == old(faceCapacity)
      ensures faces == old(faces)
      ensures rc == Ok || rc == ErrInvalidArg
      ensures rc == Ok <==> InRange(perm, vertexCapacity)
      ensures rc == Ok ==> vertexFlags[..] == Scatter(old(Flags()), perm, vertexCapacity)
      ensures rc != Ok ==> vertexFlags == old(vertexFlags)
    {
      ghost var flags0 := Flags();
      var newFlags := new u32[vertexCapacity](_ => 0);
      for i := 0 to vertexCount
        modifies newFlags
        invariant InRange(perm[..i], vertexCapacity)
        invariant newFlags[..] == Scatter(flags0[..i], perm, vertexCapacity)
      {
        var newi := perm[i];
        if newi >= vertexCapacity {
          return ErrInvalidArg;
        }
        assert flags0[..i + 1][..i] == flags0[..i];
        assert perm[..i + 1] == perm[..i] + [newi];
        newFlags[newi] := vertexFlags[i];
      }
      assert flags0[..vertexCount] == flags0 && perm[..vertexCount] == perm;
      vertexFlags := newFlags;
      Repr := Repr + {vertexFlags};
      rc := Ok;
    }

    /**
     * mesh_apply_permutation: relabels vertex `i` as `perm[i]` in every face,
     * then moves the flags to their new slots. The check of `|perm|` against
     * the vertex count comes first and changes nothing.
     */
    method ApplyPermutation(perm: seq<u32>) returns (rc: Status)
      requires Valid()
      modifies Repr
      ensures Valid() && fresh(Repr - old(Repr))
      ensures rc == Ok || rc == ErrInvalidArg
      ensures vertexCount == old(vertexCount) && faceCount == old(faceCount)
      ensures vertexCapacity == old(vertexCapacity) && faceCapacity == old(faceCapacity)
      ensures faces == old(faces)
      ensures |perm| != old(vertexCount) ==> rc == ErrInvalidArg && unchanged(faces)
      ensures |perm| == old(vertexCount) ==>
        var k := FirstOutOfRange(old(FaceData()), |perm|);
        FaceData() == Relabel(old(FaceData())[..3 * k], perm) + old(FaceData())[3 * k..]
      ensures rc == Ok <==>
        && |perm| == old(vertexCount)
        && FirstOutOfRange(old(FaceData()), |perm|) == old(faceCount)
        && InRange(perm, old(vertexCapacity))
      ensures rc == Ok ==> vertexFlags[..] == Scatter(old(Flags()), perm, vertexCapacity)
      ensures rc != Ok ==> vertexFlags == old(vertexFlags) && unchanged(vertexFlags)
    {
      if |perm| != vertexCount {
        return ErrInvalidArg;
      }
      var complete := RelabelFaces(perm);
      if !complete {
        return ErrInvalidArg;
      }
      rc := ScatterFlags(perm);
    }

    /** The condition under which mesh_check_consistency reports success. */
    ghost predicate Consistent()
      reads this, Repr
      requires Allocated()
    {
      && vertexCount <= vertexCapacity
      && faceCount <= faceCapacity
      && AllFacesGood(faces[..3 * faceCount], vertexCount)
    }

    /**
     * mesh_check_consistency: succeeds iff the counts fit the capacities and
     * every face has three live, pairwise distinct corners.
     */
    method CheckConsistency() returns (rc: Status)
      requires Allocated()
      ensures rc == Ok || rc == ErrInvalidArg
      ensures rc == Ok <==> Consistent()
    {
      if vertexCount > vertexCapacity {
        return ErrInvalidArg;
      }
      if faceCount > faceCapacity {
        return ErrInvalidArg;
      }
      ghost var s := faces[..3 * faceCount];
      for i := 0 to faceCount
        invariant forall f :: 0 <= f < i ==> GoodFace(s, f, vertexCount)
      {
        var idx := i * 3;
        var a, b, c := faces[idx], faces[idx + 1], faces[idx + 2];
        if a >= vertexCount || b >= vertexCount || c >= vertexCount {
          assert !GoodFace(s, i, vertexCount);
          return ErrInvalidArg;
        }
        if a == b || b == c || c == a {
          assert !GoodFace(s, i, vertexCount);
          return ErrInvalidArg;
        }
      }
      rc := Ok;
    }
  }
}
