/** `ujZZ`: the zig-zag sequence of Figure A.6 of ITU-T T.81, mapping the
    position of a coefficient in the entropy-coded order to its index in the
    row-major 8x8 block. */
module ZigZag {

  /** Written in rows of eight, the row-major block index of each
      coefficient in zig-zag order. */
  const ZZ: seq<int> :=
    [ 0,  1,  8, 16,  9,  2,  3, 10] + [17, 24, 32, 25, 18, 11,  4,  5] +
    [12, 19, 26, 33, 40, 48, 41, 34] + [27, 20, 13,  6,  7, 14, 21, 28] +
    [35, 42, 49, 56, 57, 50, 43, 36] + [29, 22, 15, 23, 30, 37, 44, 51] +
    [58, 59, 52, 45, 38, 31, 39, 46] + [53, 60, 61, 54, 47, 55, 62, 63]

  /** The inverse table: the zig-zag position of each block index. */
  const Unzig: seq<int> :=
    [ 0,  1,  5,  6, 14, 15, 27, 28] + [ 2,  4,  7, 13, 16, 26, 29, 42] +
    [ 3,  8, 12, 17, 25, 30, 41, 43] + [ 9, 11, 18, 24, 31, 40, 44, 53] +
    [10, 19, 23, 32, 39, 45, 52, 54] + [20, 22, 33, 38, 46, 51, 55, 60] +
    [21, 34, 37, 47, 50, 56, 59, 61] + [35, 36, 48, 49, 57, 58, 62, 63]

  /** The 64 positions of a block, one by one, so that a fact about the
      tables can be checked at each of them. */
  lemma Positions(k: int)
    requires 0 <= k < 64
    ensures k == 0 || k == 1 || k == 2 || k == 3 || k == 4 || k == 5 || k == 6 || k == 7 ||
      k == 8 || k == 9 || k == 10 || k == 11 || k == 12 || k == 13 || k == 14 || k == 15 ||
      k == 16 || k == 17 || k == 18 || k == 19 || k == 20 || k == 21 || k == 22 || k == 23 ||
      k == 24 || k == 25 || k == 26 || k == 27 || k == 28 || k == 29 || k == 30 || k == 31 ||
      k == 32 || k == 33 || k == 34 || k == 35 || k == 36 || k == 37 || k == 38 || k == 39 ||
      k == 40 || k == 41 || k == 42 || k == 43 || k == 44 || k == 45 || k == 46 || k == 47 ||
      k == 48 || k == 49 || k == 50 || k == 51 || k == 52 || k == 53 || k == 54 || k == 55 ||
      k == 56 || k == 57 || k == 58 || k == 59 || k == 60 || k == 61 || k == 62 || k == 63
  {
  }

  /** `ujZZ` is a permutation of 0..63: every block index is reached by
      exactly one zig-zag position, so no coefficient overwrites another. */
  lemma ZigZagIsPermutation()
    ensures |ZZ| == 64 && |Unzig| == 64
    ensures forall k :: 0 <= k < 64 ==> 0 <= ZZ[k] < 64 && Unzig[ZZ[k]] == k
    ensures forall n :: 0 <= n < 64 ==> 0 <= Unzig[n] < 64 && ZZ[Unzig[n]] == n
  {
    UnzigAfterZigZag(0, 32);
    UnzigAfterZigZag(32, 64);
    ZigZagAfterUnzig(0, 32);
    ZigZagAfterUnzig(32, 64);
  }

  lemma UnzigAfterZigZag(lo: int, hi: int)
    requires 0 <= lo <= hi <= 64 && hi - lo <= 32
    ensures forall k :: lo <= k < hi ==> 0 <= ZZ[k] < 64 && Unzig[ZZ[k]] == k
  {
    forall k | lo <= k < hi
      ensures 0 <= ZZ[k] < 64 && Unzig[ZZ[k]] == k
    {
      Positions(k);
    }
  }

  lemma ZigZagAfterUnzig(lo: int, hi: int)
    requires 0 <= lo <= hi <= 64 && hi - lo <= 32
    ensures forall n :: lo <= n < hi ==> 0 <= Unzig[n] < 64 && ZZ[Unzig[n]] == n
  {
    forall n | lo <= n < hi
      ensures 0 <= Unzig[n] < 64 && ZZ[Unzig[n]] == n
    {
      Positions(n);
    }
  }

  lemma ZigZagInjective(i: int, j: int)
    requires 0 <= i < 64 && 0 <= j < 64 && ZZ[i] == ZZ[j]
    ensures i == j
  {
    ZigZagIsPermutation();
    assert Unzig[ZZ[i]] == i && Unzig[ZZ[j]] == j;
  }

  /** Zig-zag position `k` names a block index, whose zig-zag position is
      `k` again. */
  lemma ZigZagSlot(k: int)
    requires 0 <= k < 64
    ensures |ZZ| == 64 && |Unzig| == 64 && 0 <= ZZ[k] < 64 && Unzig[ZZ[k]] == k
  {
    ZigZagIsPermutation();
  }

  /** `ZZ[k]`, the block index at zig-zag position `k`, with the bounds the
      table guarantees. */
  function Zig(k: int): (n: int)
    requires 0 <= k < 64
    ensures 0 <= n < 64 && Unzig[n] == k
  {
    ZigZagSlot(k);
    ZZ[k]
  }

  /** The zig-zag position of block index `n`, the inverse of `Zig`. */
  function Pos(n: int): (k: int)
    requires 0 <= n < 64
    ensures 0 <= k < 64 && Zig(k) == n
  {
    ZigZagIsPermutation();
    Unzig[n]
  }

  /** The step of the zig-zag walk of Figure A.6 from row `r`, column `c`:
      up and to the right on even anti-diagonals, down and to the left on
      odd ones, turning along the edges of the block. */
  function Step(r: int, c: int): (rc: (int, int))
    requires 0 <= r < 8 && 0 <= c < 8 && (r, c) != (7, 7)
    ensures 0 <= rc.0 < 8 && 0 <= rc.1 < 8
  {
    if (r + c) % 2 == 0 then
      (if c == 7 then (r + 1, c) else if r == 0 then (r, c + 1) else (r - 1, c + 1))
    else
      (if r == 7 then (r, c + 1) else if c == 0 then (r + 1, c) else (r + 1, c - 1))
  }

  /** The block index the walk visits after block index `n`. */
  function Next(n: int): (m: int)
    requires 0 <= n < 63
    ensures 0 <= m < 64
  {
    var rc := Step(n / 8, n % 8);
    8 * rc.0 + rc.1
  }

  lemma WalksFrom0()
    ensures forall k :: 0 <= k < 8 ==> ZZ[k] < 63 && ZZ[k + 1] == Next(ZZ[k])
  {
    forall k | 0 <= k < 8
      ensures ZZ[k] < 63 && ZZ[k + 1] == Next(ZZ[k])
    {
      assert k == 0 || k == 1 || k == 2 || k == 3 || k == 4 || k == 5 || k == 6 || k == 7;
    }
  }

  lemma WalksFrom8()
    ensures forall k :: 8 <= k < 16 ==> ZZ[k] < 63 && ZZ[k + 1] == Next(ZZ[k])
  {
    forall k | 8 <= k < 16
      ensures ZZ[k] < 63 && ZZ[k + 1] == Next(ZZ[k])
    {
      assert k == 8 || k == 9 || k == 10 || k == 11 || k == 12 || k == 13 || k == 14 || k == 15;
    }
  }

  lemma WalksFrom16()
    ensures forall k :: 16 <= k < 24 ==> ZZ[k] < 63 && ZZ[k + 1] == Next(ZZ[k])
  {
    forall k | 16 <= k < 24
      ensures ZZ[k] < 63 && ZZ[k + 1] == Next(ZZ[k])
    {
      assert k == 16 || k == 17 || k == 18 || k == 19 || k == 20 || k == 21 || k == 22 || k == 23;
    }
  }

  lemma WalksFrom24()
    ensures forall k :: 24 <= k < 32 ==> ZZ[k] < 63 && ZZ[k + 1] == Next(ZZ[k])
  {
    forall k | 24 <= k < 32
      ensures ZZ[k] < 63 && ZZ[k + 1] == Next(ZZ[k])
    {
      assert k == 24 || k == 25 || k == 26 || k == 27 || k == 28 || k == 29 || k == 30 || k == 31;
    }
  }

  lemma WalksFrom32()
    ensures forall k :: 32 <= k < 40 ==> ZZ[k] < 63 && ZZ[k + 1] == Next(ZZ[k])
  {
    forall k | 32 <= k < 40
      ensures ZZ[k] < 63 && ZZ[k + 1] == Next(ZZ[k])
    {
      assert k == 32 || k == 33 || k == 34 || k == 35 || k == 36 || k == 37 || k == 38 || k == 39;
    }
  }

  lemma WalksFrom40()
    ensures forall k :: 40 <= k < 48 ==> ZZ[k] < 63 && ZZ[k + 1] == Next(ZZ[k])
  {
    forall k | 40 <= k < 48
      ensures ZZ[k] < 63 && ZZ[k + 1] == Next(ZZ[k])
    {
      assert k == 40 || k == 41 || k == 42 || k == 43 || k == 44 || k == 45 || k == 46 || k == 47;
    }
  }

  lemma WalksFrom48()
    ensures forall k :: 48 <= k < 56 ==> ZZ[k] < 63 && ZZ[k + 1] == Next(ZZ[k])
  {
    forall k | 48 <= k < 56
      ensures ZZ[k] < 63 && ZZ[k + 1] == Next(ZZ[k])
    {
      assert k == 48 || k == 49 || k == 50 || k == 51 || k == 52 || k == 53 || k == 54 || k == 55;
    }
  }

  lemma WalksFrom56()
    ensures forall k :: 56 <= k < 63 ==> ZZ[k] < 63 && ZZ[k + 1] == Next(ZZ[k])
  {
    forall k | 56 <= k < 63
      ensures ZZ[k] < 63 && ZZ[k + 1] == Next(ZZ[k])
    {
      assert k == 56 || k == 57 || k == 58 || k == 59 || k == 60 || k == 61 || k == 62;
    }
  }

  /** `ujZZ` is the walk of Figure A.6: it starts at the DC coefficient,
      ends at the last one, and each entry is the step from the previous. */
  lemma ZigZagIsTheWalk()
    ensures ZZ[0] == 0 && ZZ[63] == 63
    ensures forall k :: 0 <= k < 63 ==> ZZ[k] < 63 && ZZ[k + 1] == Next(ZZ[k])
  {
    WalksFrom0();
    WalksFrom8();
    WalksFrom16();
    WalksFrom24();
    WalksFrom32();
    WalksFrom40();
    WalksFrom48();
    WalksFrom56();
  }
}
