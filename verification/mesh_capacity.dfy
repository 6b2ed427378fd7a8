/**
 * Capacity growth of the mesh buffers: the first allocation is 16 slots, every
 * later growth doubles the capacity until the requested minimum fits.
 */
module Capacity {
  import opened MeshTypes

  /** Keep doubling `c` until it reaches `minCap`. */
  function Doubling(c: nat, minCap: nat): (r: nat)
    requires c > 0
    ensures r >= minCap && r >= c
    ensures c >= minCap ==> r == c
    ensures c < minCap ==> r < 2 * minCap
    decreases if c < minCap then minCap - c else 0
  {
    if c >= minCap then c else Doubling(2 * c, minCap)
  }

  /** The first capacity tried when a buffer has to grow. */
  function FirstGrowth(cap: nat): (r: nat)
    ensures r > 0
  {
    if cap == 0 then 16 else 2 * cap
  }

  /** The capacity a buffer has after it was asked to hold `minCap` slots. */
  function GrownCapacity(cap: nat, minCap: nat): (r: nat)
    ensures r >= minCap && r >= cap
    ensures cap >= minCap ==> r == cap
    ensures cap < minCap ==> r < 2 * minCap || r == 16
    ensures cap <= U32Max && minCap <= MaxCapacity ==> r <= U32Max
  {
    if cap >= minCap then cap else Doubling(FirstGrowth(cap), minCap)
  }

  /** Raising the target by one does not move a result that already overshoots it. */
  lemma {:induction false} DoublingOvershoot(c: nat, t: nat)
    requires c > 0 && Doubling(c, t) > t
    ensures Doubling(c, t + 1) == Doubling(c, t)
    decreases if c < t then t - c else 0
  {
    if c < t {
      DoublingOvershoot(2 * c, t);
    }
  }

  /** When the doubling lands exactly on the target, one more slot doubles it again. */
  lemma {:induction false} DoublingExact(c: nat, t: nat)
    requires c > 0 && Doubling(c, t) == t
    ensures Doubling(c, t + 1) == 2 * t
    decreases if c < t then t - c else 0
  {
    if c < t {
      DoublingExact(2 * c, t);
    }
  }

  /**
   * Growing one slot at a time (as repeated mesh_add_vertex / mesh_add_face do)
   * ends at the same capacity as growing straight to the final size.
   */
  lemma GrowOneAtATime(cap: nat, t: nat)
    ensures GrownCapacity(GrownCapacity(cap, t), t + 1) == GrownCapacity(cap, t + 1)
  {
    if cap < t {
      var d := Doubling(FirstGrowth(cap), t);
      if d > t {
        DoublingOvershoot(FirstGrowth(cap), t);
      } else {
        DoublingExact(FirstGrowth(cap), t);
      }
    }
  }

  /** 2 to the power `k`. */
  function Pow2(k: nat): (r: nat)
    ensures r >= 1
  {
    if k == 0 then 1 else 2 * Pow2(k - 1)
  }

  lemma {:induction false} Pow2Monotone(j: nat, k: nat)
    requires j <= k
    ensures Pow2(j) <= Pow2(k)
    decreases k - j
  {
    if j < k {
      Pow2Monotone(j, k - 1);
    }
  }

  /**
   * The value of `newcap` after `k` rounds of `newcap *= 2` on a `uint32_t`,
   * starting from `c`, as the C loop computes it (with wrap-around).
   */
  function WrappedDoubling(c: u32, k: nat): (r: u32)
  {
    if k == 0 then c
    else
      // 2 * prev < 2^33, so reducing modulo 2^32 subtracts 2^32 at most once
      var doubled := 2 * WrappedDoubling(c, k - 1);
      if doubled < 0x1_0000_0000 then doubled else doubled - 0x1_0000_0000
  }

  /** From the first allocation of 16 the wrapped value is 2^(k+4) up to 2^31, and 0 from then on. */
  lemma {:induction false} WrappedDoublingFrom16(k: nat)
    ensures WrappedDoubling(16, k) == if k <= 27 then Pow2(k + 4) else 0
  {
    if k == 0 {
      assert Pow2(4) == 16;
    } else {
      WrappedDoublingFrom16(k - 1);
      var prev: int := WrappedDoubling(16, k - 1);
      if k <= 28 {
        assert prev == Pow2(k + 3);
        assert 2 * prev == Pow2(k + 4);
        Pow2Monotone(k + 4, 32);
        Pow2Value31();
        assert Pow2(32) == 0x1_0000_0000;
        if k == 28 {
          assert 2 * prev == 0x1_0000_0000;
        } else {
          Pow2Monotone(k + 4, 31);
          assert 2 * prev < 0x1_0000_0000;
        }
      } else {
        assert prev == 0;
      }
    }
  }

  lemma Pow2Value31()
    ensures Pow2(31) == 0x8000_0000
  {
    assert Pow2(8) == 0x100;
    assert Pow2(16) == 0x1_0000;
    assert Pow2(24) == 0x100_0000;
  }

  /**
   * As written, ensure_vertex_capacity / ensure_face_capacity never leave their
   * doubling loop for a request of 2^31 + 1 slots from an empty buffer: every
   * value `newcap` takes stays below the request, so `while (newcap < min_cap)`
   * runs forever.
   */
  lemma AsWrittenGrowthNeverExits(k: nat)
    ensures WrappedDoubling(FirstGrowth(0), k) < 0x8000_0001
  {
    WrappedDoublingFrom16(k);
    if k <= 27 {
      Pow2Monotone(k + 4, 31);
      Pow2Value31();
    }
  }
}
