// The two CMSIS-DSP routines the repacker calls, each reduced to what the
// repacker relies on: arm_rfft_fast_f32 as a black box that fills the first
// fftLen slots of its output and uses its input as scratch, and
// arm_cmplx_conj_f32 by its documented effect.

module Cmsis {

  /** C's uint8_t, the type of the direction flag. */
  newtype UInt8 = x: int | 0 <= x < 0x100

  /** Value written at index k, from the fftLen input scalars the routine
      reads and its direction (true for the inverse transform). */
  type Kernel = (seq<real>, bool, nat) -> real

  /** An arm_rfft_fast_instance_f32: the transform length fixed when the
      instance was set up, and the numerics of the transform, which are not
      modelled and enter as two black-box kernels. */
  datatype RfftFastInstance = RfftFastInstance(
    fftLenRfft: nat,
    output: Kernel,   // what arm_rfft_fast_f32 writes to pOut[k]
    scratch: Kernel)  // what it leaves behind in pIn[k]

  /** The fftLen scalars a kernel produces from input `x`. */
  function Apply(f: Kernel, x: seq<real>, inverse: bool): (r: seq<real>)
    ensures |r| == |x|
    ensures forall k :: 0 <= k < |x| ==> r[k] == f(x, inverse, k)
  {
    seq(|x|, k requires 0 <= k < |x| => f(x, inverse, k))
  }

  /** arm_rfft_fast_f32(S, pIn, pOut, ifftFlag): reads pIn[0..fftLen),
      writes pOut[0..fftLen), and overwrites pIn[0..fftLen) with working
      values ("input is modified"); nothing beyond fftLen is touched. The
      routine tests ifftFlag for being nonzero. */
  method RfftFast(s: RfftFastInstance, pIn: array<real>, pOut: array<real>, ifftFlag: UInt8)
    requires pIn != pOut
    requires s.fftLenRfft <= pIn.Length && s.fftLenRfft <= pOut.Length
    modifies pIn, pOut
    ensures pOut[..] == Apply(s.output, old(pIn[..s.fftLenRfft]), ifftFlag != 0) + old(pOut[s.fftLenRfft..])
    ensures pIn[..] == Apply(s.scratch, old(pIn[..s.fftLenRfft]), ifftFlag != 0) + old(pIn[s.fftLenRfft..])
  {
    var x := pIn[..s.fftLenRfft];
    forall k | 0 <= k < s.fftLenRfft {
      pOut[k] := s.output(x, ifftFlag != 0, k);
    }
    forall k | 0 <= k < s.fftLenRfft {
      pIn[k] := s.scratch(x, ifftFlag != 0, k);
    }
  }

  /** Interleaved (re, im) pairs with every imaginary part negated. */
  function Conjugated(s: seq<real>): (r: seq<real>)
    requires |s| % 2 == 0
    ensures |r| == |s|
    ensures forall p :: 0 <= p < |s| / 2 ==> r[2 * p] == s[2 * p] && r[2 * p + 1] == -s[2 * p + 1]
  {
    seq(|s|, j requires 0 <= j < |s| => if j % 2 == 0 then s[j] else -s[j])
  }

  /** arm_cmplx_conj_f32(&buf[src], &buf[dst], numSamples) on one buffer:
      the numSamples complex values starting at `dst` become the conjugates
      of those starting at `src`. The two runs must not overlap. */
  method CmplxConj(buf: array<real>, src: nat, dst: nat, numSamples: nat)
    requires src + 2 * numSamples <= buf.Length && dst + 2 * numSamples <= buf.Length
    requires src + 2 * numSamples <= dst || dst + 2 * numSamples <= src
    modifies buf
    ensures buf[..] == old(buf[..dst]) + Conjugated(old(buf[src..src + 2 * numSamples])) + old(buf[dst + 2 * numSamples..])
  {
    ghost var before := buf[..];
    forall j | 0 <= j < 2 * numSamples {
      buf[dst + j] := if j % 2 == 0 then buf[src + j] else -buf[src + j];
    }
    ghost var conj := Conjugated(before[src..src + 2 * numSamples]);
    forall k | 0 <= k < buf.Length
      ensures buf[k] == (before[..dst] + conj + before[dst + 2 * numSamples..])[k]
    {
      if dst <= k < dst + 2 * numSamples {
        assert conj[k - dst] == if (k - dst) % 2 == 0 then before[src + k - dst] else -before[src + k - dst];
      }
    }
  }
}
