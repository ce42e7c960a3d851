/** The PCG-XSH-RR generator (32-bit output, 64-bit state) of pcg_rnd.c: the global
    `pcg_state`, the 32-bit draw, the bounded draw by rejection, and the 16-bit draw that
    serves the two halves of one 32-bit draw. */
module Pcg {
  import opened Machine

  /** The LCG multiplier and increment of pcg_rnd.c:20. */
  const Multiplier: bv64 := 6364136223846793005
  const Increment: bv64 := 1442695040888963407

  /** One step of the 64-bit linear congruential state; `bv64` arithmetic wraps modulo 2^64
      exactly as `uint64_t` does. */
  function Advance(s: bv64): bv64
  {
    s * Multiplier + Increment
  }

  /** `Advance` applied `k` times. */
  function AdvanceBy(s: bv64, k: nat): bv64
    decreases k
  {
    if k == 0 then s else AdvanceBy(Advance(s), k - 1)
  }

  /** The xorshift half of the output permutation: `((state >> 18) ^ state) >> 27`,
      truncated to 32 bits by the assignment to a `uint32_t`. */
  function XorShifted(s: bv64): bv32
  {
    ((((s >> 18) ^ s) >> 27) & 0xFFFF_FFFF) as bv32
  }

  /** The rotation amount: the top five bits of the state. */
  function Rotation(s: bv64): (rot: bv32)
    ensures rot < 32
  {
    (s >> 59) as bv32
  }

  /** The rotate written with two shifts, as pcg_rnd.c:23 does. */
  function RotateFormula(v: bv32, rot: bv32): bv32
    requires rot < 32
  {
    (v >> rot) | (v << ((-rot) & 31))
  }

  /** The 32-bit output that a draw from state `s` returns. */
  function Output(s: bv64): bv32
  {
    RotateFormula(XorShifted(s), Rotation(s))
  }

  /** The two-shift formula is a right rotation by `rot` bits, for every amount in 0..31. */
  lemma RotateFormulaIsRotation(v: bv32, rot: bv32)
    requires rot < 32
    ensures RotateFormula(v, rot) == v.RotateRight(rot as nat)
  {
    if rot < 8 {
      RotateFormulaFrom0(v, rot);
    } else if rot < 16 {
      RotateFormulaFrom8(v, rot);
    } else if rot < 24 {
      RotateFormulaFrom16(v, rot);
    } else {
      RotateFormulaFrom24(v, rot);
    }
  }

  lemma RotateFormulaFrom0(v: bv32, rot: bv32)
    requires 0 <= rot < 8
    ensures RotateFormula(v, rot) == v.RotateRight(rot as nat)
  {
    if rot == 0 { assert RotateFormula(v, rot) == (v >> 0) | (v << 0); }
    else if rot == 1 { assert RotateFormula(v, rot) == (v >> 1) | (v << 31); }
    else if rot == 2 { assert RotateFormula(v, rot) == (v >> 2) | (v << 30); }
    else if rot == 3 { assert RotateFormula(v, rot) == (v >> 3) | (v << 29); }
    else if rot == 4 { assert RotateFormula(v, rot) == (v >> 4) | (v << 28); }
    else if rot == 5 { assert RotateFormula(v, rot) == (v >> 5) | (v << 27); }
    else if rot == 6 { assert RotateFormula(v, rot) == (v >> 6) | (v << 26); }
    else if rot == 7 { assert RotateFormula(v, rot) == (v >> 7) | (v << 25); }
  }

  lemma RotateFormulaFrom8(v: bv32, rot: bv32)
    requires 8 <= rot < 16
    ensures RotateFormula(v, rot) == v.RotateRight(rot as nat)
  {
    if rot == 8 { assert RotateFormula(v, rot) == (v >> 8) | (v << 24); }
    else if rot == 9 { assert RotateFormula(v, rot) == (v >> 9) | (v << 23); }
    else if rot == 10 { assert RotateFormula(v, rot) == (v >> 10) | (v << 22); }
    else if rot == 11 { assert RotateFormula(v, rot) == (v >> 11) | (v << 21); }
    else if rot == 12 { assert RotateFormula(v, rot) == (v >> 12) | (v << 20); }
    else if rot == 13 { assert RotateFormula(v, rot) == (v >> 13) | (v << 19); }
    else if rot == 14 { assert RotateFormula(v, rot) == (v >> 14) | (v << 18); }
    else if rot == 15 { assert RotateFormula(v, rot) == (v >> 15) | (v << 17); }
  }

  lemma RotateFormulaFrom16(v: bv32, rot: bv32)
    requires 16 <= rot < 24
    ensures RotateFormula(v, rot) == v.RotateRight(rot as nat)
  {
    if rot == 16 { assert RotateFormula(v, rot) == (v >> 16) | (v << 16); }
    else if rot == 17 { assert RotateFormula(v, rot) == (v >> 17) | (v << 15); }
    else if rot == 18 { assert RotateFormula(v, rot) == (v >> 18) | (v << 14); }
    else if rot == 19 { assert RotateFormula(v, rot) == (v >> 19) | (v << 13); }
    else if rot == 20 { assert RotateFormula(v, rot) == (v >> 20) | (v << 12); }
    else if rot == 21 { assert RotateFormula(v, rot) == (v >> 21) | (v << 11); }
    else if rot == 22 { assert RotateFormula(v, rot) == (v >> 22) | (v << 10); }
    else if rot == 23 { assert RotateFormula(v, rot) == (v >> 23) | (v << 9); }
  }

  lemma RotateFormulaFrom24(v: bv32, rot: bv32)
    requires 24 <= rot < 32
    ensures RotateFormula(v, rot) == v.RotateRight(rot as nat)
  {
    if rot == 24 { assert RotateFormula(v, rot) == (v >> 24) | (v << 8); }
    else if rot == 25 { assert RotateFormula(v, rot) == (v >> 25) | (v << 7); }
    else if rot == 26 { assert RotateFormula(v, rot) == (v >> 26) | (v << 6); }
    else if rot == 27 { assert RotateFormula(v, rot) == (v >> 27) | (v << 5); }
    else if rot == 28 { assert RotateFormula(v, rot) == (v >> 28) | (v << 4); }
    else if rot == 29 { assert RotateFormula(v, rot) == (v >> 29) | (v << 3); }
    else if rot == 30 { assert RotateFormula(v, rot) == (v >> 30) | (v << 2); }
    else if rot == 31 { assert RotateFormula(v, rot) == (v >> 31) | (v << 1); }
  }

  /** The output is the xorshifted value rotated right by the top five state bits. */
  lemma OutputIsRotatedXorShift(s: bv64)
    ensures Output(s) == XorShifted(s).RotateRight(Rotation(s) as nat)
  {
    RotateFormulaIsRotation(XorShifted(s), Rotation(s));
  }

  /** When the top five state bits are zero the left shift is by 0 and the output is the
      xorshifted value itself. */
  lemma UnrotatedOutput(s: bv64)
    requires Rotation(s) == 0
    ensures Output(s) == XorShifted(s)
  {
  }

  /** The rejection threshold of pcg_rnd.c:29. `-bound` on a `uint32_t` is `2^32 - bound`,
      so the threshold is `(2^32 - bound) mod bound`, which equals `2^32 mod bound`.
      The draws at or above it form a range whose length is a multiple of `bound`,
      so reducing them modulo `bound` hits every residue equally often. */
  function Threshold(bound: Uint32): (t: Uint32)
    requires bound > 0
    ensures t < bound
    ensures (Modulus32 - t) % bound == 0
  {
    var t := (Modulus32 - bound) % bound;
    var q := (Modulus32 - bound) / bound;
    assert Modulus32 - t == (q + 1) * bound + 0;
    ModOfMultiplePlus(q + 1, bound, 0);
    t
  }

  /** How many of the `len` integers `lo, lo + 1, ..., lo + len - 1` leave remainder `k`
      modulo `b`. */
  function Hits(lo: int, len: nat, b: int, k: int): nat
    requires b > 0
  {
    if len == 0 then 0 else Hits(lo, len - 1, b, k) + (if (lo + len - 1) % b == k then 1 else 0)
  }

  /** The draws `pcg_32_bounded` accepts (pcg_rnd.c:29-34) are the outputs from the threshold
      up to `2^32 - 1`; reducing them modulo `bound` gives every result below `bound` exactly
      `(2^32 - threshold) / bound` times, so an unbiased output stays unbiased. */
  lemma NoModuloBias(bound: Uint32, k: nat)
    requires 0 < bound && k < bound
    ensures var t := Threshold(bound);
      Hits(t, Modulus32 - t, bound, k) == (Modulus32 - t) / bound
  {
    var t := Threshold(bound);
    var q := (Modulus32 - t) / bound;
    assert Modulus32 - t == q * bound;
    HitsWholeBlocks(t, q, bound, k);
  }

  /** `q` runs of `b` consecutive integers hold `q` integers of each remainder. */
  lemma {:induction false} HitsWholeBlocks(lo: nat, q: nat, b: int, k: nat)
    requires 0 < b && k < b
    ensures Hits(lo, q * b, b, k) == q
  {
    if q > 0 {
      var m := (q - 1) * b;
      assert q * b == m + b;
      HitsWholeBlocks(lo, q - 1, b, k);
      HitsSplit(lo, m, b, b, k);
      HitsOneBlock(lo + m, b, k);
    }
  }

  /** A run of `b` consecutive naturals holds exactly one of each remainder. */
  lemma {:induction false} HitsOneBlock(lo: nat, b: int, k: nat)
    requires 0 < b && k < b
    ensures Hits(lo, b, b, k) == 1
  {
    if lo == 0 {
      HitsPrefix(b, b, k);
    } else {
      var x := lo - 1;
      HitsOneBlock(x, b, k);
      HitsSplit(x, 1, b - 1, b, k);
      HitsSplit(lo, b - 1, 1, b, k);
      assert Hits(x, 1, b, k) == if x % b == k then 1 else 0;
      assert Hits(x + b, 1, b, k) == if (x + b) % b == k then 1 else 0;
      ModShift(x, b);
    }
  }

  /** Adding the modulus leaves the remainder alone. */
  lemma ModShift(x: nat, b: int)
    requires 0 < b
    ensures (x + b) % b == x % b
  {
    assert x + b == (x / b + 1) * b + x % b;
    ModOfMultiplePlus(x / b + 1, b, x % b);
  }

  /** Among `0, ..., len - 1` with `len <= b`, remainder `k` occurs once when `k < len`. */
  lemma {:induction false} HitsPrefix(len: nat, b: int, k: nat)
    requires 0 < b && len <= b
    ensures Hits(0, len, b, k) == if k < len then 1 else 0
  {
    if len > 0 {
      HitsPrefix(len - 1, b, k);
      ModOfMultiplePlus(0, b, len - 1);
    }
  }

  /** Counting over a run splits at any point. */
  lemma {:induction false} HitsSplit(lo: int, a: nat, c: nat, b: int, k: int)
    requires b > 0
    ensures Hits(lo, a + c, b, k) == Hits(lo, a, b, k) + Hits(lo + a, c, b, k)
  {
    if c > 0 {
      HitsSplit(lo, a, c - 1, b, k);
    }
  }

  /** What `pcg_32_bounded(bound)` returns, and the state it leaves, when started in state `s`:
      draw until the output is at least the threshold, then reduce it modulo `bound`.
      The rejection loop has no bound in the source; `fuel` caps the number of redraws, and
      when it runs out the last draw is reduced as if it had been accepted. */
  function BoundedDraw(s: bv64, bound: Uint32, fuel: nat): (res: (Uint32, bv64))
    requires bound > 0
    ensures res.0 < bound
    decreases fuel
  {
    var r := Output(s) as int;
    if r >= Threshold(bound) || fuel == 0 then (r % bound, Advance(s))
    else BoundedDraw(Advance(s), bound, fuel - 1)
  }

  /** The number of 32-bit draws `BoundedDraw` consumes. */
  function BoundedDraws(s: bv64, bound: Uint32, fuel: nat): (k: nat)
    requires bound > 0
    ensures 1 <= k <= fuel + 1
    decreases fuel
  {
    if Output(s) as int >= Threshold(bound) || fuel == 0 then 1
    else 1 + BoundedDraws(Advance(s), bound, fuel - 1)
  }

  /** One rejected draw: the bounded draw from `s` is the one from the next state, with
      one more draw consumed. */
  lemma BoundedDrawRejects(s: bv64, bound: Uint32, fuel: nat)
    requires bound > 0 && fuel > 0 && Output(s) as int < Threshold(bound)
    ensures BoundedDraw(s, bound, fuel) == BoundedDraw(Advance(s), bound, fuel - 1)
    ensures BoundedDraws(s, bound, fuel) == 1 + BoundedDraws(Advance(s), bound, fuel - 1)
  {
  }

  /** Advancing `k + 1` times is advancing once and then `k` times. */
  lemma AdvanceByFirst(s: bv64, k: nat)
    ensures AdvanceBy(s, k + 1) == AdvanceBy(Advance(s), k)
  {
  }

  /** The bounded draw leaves the state advanced exactly once per draw it consumes. */
  lemma {:induction false} BoundedDrawAdvancesState(s: bv64, bound: Uint32, fuel: nat)
    requires bound > 0
    ensures BoundedDraw(s, bound, fuel).1 == AdvanceBy(s, BoundedDraws(s, bound, fuel))
    decreases fuel
  {
    if Output(s) as int >= Threshold(bound) || fuel == 0 {
    } else {
      var s1 := Advance(s);
      BoundedDrawAdvancesState(s1, bound, fuel - 1);
      BoundedDrawRejects(s, bound, fuel);
      AdvanceByFirst(s, BoundedDraws(s1, bound, fuel - 1));
    }
  }

  /** The bounded draw is the last output it consumes reduced modulo `bound`. */
  lemma {:induction false} BoundedDrawIsLastDraw(s: bv64, bound: Uint32, fuel: nat)
    requires bound > 0
    ensures BoundedDraw(s, bound, fuel).0 == Output(LastDrawState(s, bound, fuel)) as int % bound
    decreases fuel
  {
    if Output(s) as int >= Threshold(bound) || fuel == 0 {
    } else {
      BoundedDrawIsLastDraw(Advance(s), bound, fuel - 1);
      BoundedDrawRejects(s, bound, fuel);
    }
  }

  /** The state the last draw of `BoundedDraw` is made from. */
  function LastDrawState(s: bv64, bound: Uint32, fuel: nat): (last: bv64)
    requires bound > 0
    ensures last == AdvanceBy(s, BoundedDraws(s, bound, fuel) - 1)
    decreases fuel
  {
    if Output(s) as int >= Threshold(bound) || fuel == 0 then s
    else
      var k1 := BoundedDraws(Advance(s), bound, fuel - 1);
      AdvanceByFirst(s, k1 - 1);
      LastDrawState(Advance(s), bound, fuel - 1)
  }

  /** Unless the fuel ran out, the last output the bounded draw consumes is at or above the
      threshold: it was accepted. */
  lemma {:induction false} BoundedDrawIsAccepted(s: bv64, bound: Uint32, fuel: nat)
    requires bound > 0
    ensures BoundedDraws(s, bound, fuel) <= fuel ==>
      Output(LastDrawState(s, bound, fuel)) as int >= Threshold(bound)
    decreases fuel
  {
    if Output(s) as int >= Threshold(bound) || fuel == 0 {
    } else {
      BoundedDrawIsAccepted(Advance(s), bound, fuel - 1);
      BoundedDrawRejects(s, bound, fuel);
    }
  }

  /** Every draw before the one `BoundedDraw` keeps was rejected, so the kept draw is the
      first acceptable one. */
  lemma {:induction false} BoundedDrawRejectsEarlierDraws(s: bv64, bound: Uint32, fuel: nat)
    requires bound > 0
    ensures forall j :: 0 <= j < BoundedDraws(s, bound, fuel) - 1 ==>
      Output(AdvanceBy(s, j)) as int < Threshold(bound)
    decreases fuel
  {
    if Output(s) as int >= Threshold(bound) || fuel == 0 {
    } else {
      var s1 := Advance(s);
      BoundedDrawRejectsEarlierDraws(s1, bound, fuel - 1);
      forall j | 0 < j < BoundedDraws(s, bound, fuel) - 1
        ensures Output(AdvanceBy(s, j)) as int < Threshold(bound)
      {
        assert AdvanceBy(s, j) == AdvanceBy(s1, j - 1);
      }
    }
  }

  /** When `bound` divides 2^32 (a power of two) the threshold is 0: the first draw is always
      accepted and the state advances once. */
  lemma PowerOfTwoBoundNeverRejects(s: bv64, bound: Uint32, fuel: nat)
    requires bound > 0 && Modulus32 % bound == 0
    ensures BoundedDraw(s, bound, fuel) == (Output(s) as int % bound, Advance(s))
  {
    var q := Modulus32 / bound;
    assert Modulus32 == q * bound;
    assert Modulus32 - bound == (q - 1) * bound + 0;
    ModOfMultiplePlus(q - 1, bound, 0);
  }

  /** The 16-bit draw's statics `exist` and `rmem` together with the generator state. */
  datatype Cache16 = Cache16(state: bv64, exist: bool, rmem: bv32)

  /** Low and high halves of a 32-bit draw, as the `uint16_t` return conversion and `>> 16`
      produce them. */
  function Low16(r: bv32): bv16 { (r & 0xFFFF) as bv16 }
  function High16(r: bv32): bv16 { (r >> 16) as bv16 }

  /** One `pcg_16` call: serve the cached high half if there is one, otherwise draw,
      cache the draw and return its low half. */
  function Draw16(c: Cache16): (Cache16, bv16)
  {
    if c.exist then (c.(exist := false), High16(c.rmem))
    else var r := Output(c.state); (Cache16(Advance(c.state), true, r), Low16(r))
  }

  /** From an empty cache, two 16-bit draws cost one 32-bit draw: the state advances once,
      the cache is empty again, and the first result is the low half and the second the high
      half of the output of the original state (which `HalvesReassemble` puts back together). */
  lemma TwoDraw16AreOneDraw32(c: Cache16)
    requires !c.exist
    ensures var (c1, lo) := Draw16(c); var (c2, hi) := Draw16(c1);
      && c1.state == Advance(c.state) && c1.exist
      && c2.state == Advance(c.state) && !c2.exist
      && lo == Low16(Output(c.state)) && hi == High16(Output(c.state))
  {
  }

  /** The high and low 16-bit halves of a 32-bit value put back together give the value. */
  lemma HalvesReassemble(r: bv32)
    ensures ((High16(r) as bv32) << 16) | (Low16(r) as bv32) == r
  {
  }

  /** The generator: the 64-bit global `pcg_state` and the statics of `pcg_16`. */
  class Generator {
    var state: bv64
    var exist: bool
    var rmem: bv32

    /** Seeding, as `main` stores the seed in `pcg_state`; the statics start at zero. */
    constructor (seed: bv64)
      ensures state == seed && !exist && rmem == 0
    {
      state := seed;
      exist := false;
      rmem := 0;
    }

    /** `pcg_32`: the output is computed from the state before the advance. */
    method Next32() returns (r: bv32)
      modifies this`state
      ensures state == Advance(old(state))
      ensures r == Output(old(state))
    {
      var old_state := state;
      state := Advance(state);
      var value := XorShifted(old_state);
      var rot := Rotation(old_state);
      r := RotateFormula(value, rot);
    }

    /** `pcg_32_bounded`: rejection sampling below the threshold, then reduction.
        A zero bound is undefined behaviour in the source (division by zero). */
    method Bounded(bound: Uint32, fuel: nat) returns (r: Uint32)
      requires bound > 0
      modifies this`state
      ensures (r, state) == BoundedDraw(old(state), bound, fuel)
    {
      var threshold := (Modulus32 - bound) % bound;
      var x := Next32();
      var left := fuel;
      while x as int < threshold && left > 0
        invariant BoundedDraw(old(state), bound, fuel)
          == if x as int >= threshold || left == 0 then (x as int % bound, state)
             else BoundedDraw(state, bound, left - 1)
        decreases left
      {
        x := Next32();
        left := left - 1;
      }
      r := x as int % bound;
    }

    /** `pcg_16`. */
    method Next16() returns (h: bv16)
      modifies this
      ensures (Cache16(state, exist, rmem), h) == Draw16(Cache16(old(state), old(exist), old(rmem)))
    {
      if exist {
        exist := false;
        return (rmem >> 16) as bv16;
      }
      exist := true;
      rmem := Next32();
      h := (rmem & 0xFFFF) as bv16;
    }
  }
}
