/** The exponential recovery-time sampler `exptime` (tsir_ref.c:56-62). The reference
    simulator defines it there; the fast simulator calls an `exptime()` (tsir.c:41) whose
    definition is not part of this model and which is taken to be the same routine. The
    floating-point part, `a * log((r + 1) / 2^32)` converted to an `unsigned int`, is not
    modelled: it is the input function `logTime`. */
module Sampler {
  import opened Machine
  import opened Pcg

  /** The largest 32-bit draw, the one value that is short-circuited. */
  const TopDraw: bv32 := 0xFFFF_FFFF

  /** The duration a draw `r` yields: 0 for the top draw, whose logarithm is that of 1,
      and the converted floating-point value otherwise. */
  function ExpDuration(r: bv32, logTime: bv32 -> Uint32): (d: Uint32)
    ensures r == TopDraw ==> d == 0
    ensures r != TopDraw ==> d == logTime(r)
  {
    if r == TopDraw then 0 else logTime(r)
  }

  /** `exptime`: one 32-bit draw, mapped to a duration. */
  method Exptime(rng: Generator, logTime: bv32 -> Uint32) returns (d: Uint32)
    modifies rng`state
    ensures rng.state == Advance(old(rng.state))
    ensures d == ExpDuration(Output(old(rng.state)), logTime)
  {
    var r := rng.Next32();
    d := ExpDuration(r, logTime);
  }
}
