// r2cfft: makes the real FFT's packed spectrum look like the output of a
// full complex FFT (forward), and re-packs a full spectrum before the
// inverse real FFT (inverse).

module Repack {
  import opened PairSwap
  import opened Cmsis

  /** TransformDirection: any nonzero flag selects the inverse transform. */
  const Forward: UInt8 := 0
  const Inverse: UInt8 := 1

  /** The full complex layout, 2n scalars for bins 0..n-1, built from the n
      scalars of arm_rfft_fast_f32's packed layout (DC real in slot 0,
      Nyquist real in slot 1, bins 1..n/2-1 from slot 2) the way the forward
      path builds it: bins n/2+1..n-1 are the conjugates of bins 1..n/2-1 put
      in reverse order. The Nyquist imaginary slot is not produced by the
      repacking; it is whatever `nyquistImag` the buffer held. */
  function FullSpectrum(packed: seq<real>, nyquistImag: real): (full: seq<real>)
    requires |packed| >= 2 && |packed| % 2 == 0
    ensures |full| == 2 * |packed|
    // bin 0: DC real, imaginary part zero
    ensures full[0] == packed[0] && full[1] == 0.0
    // bins 1..n/2-1 as the transform left them
    ensures full[2..|packed|] == packed[2..]
    // bin n/2: the Nyquist real moved out of slot 1
    ensures full[|packed|] == packed[1] && full[|packed| + 1] == nyquistImag
    // bin n-k is the conjugate of bin k
    ensures forall k :: 1 <= k < |packed| / 2 ==>
              full[2 * (|packed| - k)] == packed[2 * k] && full[2 * (|packed| - k) + 1] == -packed[2 * k + 1]
  {
    MirroredHalf(packed);
    [packed[0], 0.0] + packed[2..] + [packed[1], nyquistImag] + ReversePairs(Conjugated(packed[2..]))
  }

  /** The run the forward path writes at pOut[n+2..2n): its pair k', read
      from the top, is the conjugate of bin k' + 1. */
  lemma MirroredHalf(packed: seq<real>)
    requires |packed| >= 2 && |packed| % 2 == 0
    ensures var upper := ReversePairs(Conjugated(packed[2..]));
            && |upper| == |packed| - 2
            && forall k :: 1 <= k < |packed| / 2 ==>
                 upper[|packed| - 2 * k - 2] == packed[2 * k] && upper[|packed| - 2 * k - 1] == -packed[2 * k + 1]
  {
    var n, lower := |packed|, Conjugated(packed[2..]);
    var half := n / 2;
    assert n == 2 * half && |lower| / 2 == half - 1;
    forall k | 1 <= k < half
      ensures ReversePairs(lower)[n - 2 * k - 2] == packed[2 * k]
      ensures ReversePairs(lower)[n - 2 * k - 1] == -packed[2 * k + 1]
    {
      var q := half - 1 - k;
      assert n - 2 * k - 2 == 2 * q && |lower| - 2 - 2 * q == 2 * (k - 1);
      assert lower[2 * (k - 1)] == packed[2 * k] && lower[2 * (k - 1) + 1] == -packed[2 * k + 1];
    }
  }

  /** Real and imaginary part of bin k of a full spectrum. */
  function Re(full: seq<real>, k: nat): real
    requires 2 * k + 1 < |full|
  {
    full[2 * k]
  }

  function Im(full: seq<real>, k: nat): real
    requires 2 * k + 1 < |full|
  {
    full[2 * k + 1]
  }

  /** Bins k and n-k of a full spectrum of n bins are complex conjugates. */
  ghost predicate ConjugateSymmetric(full: seq<real>, n: nat)
    requires |full| == 2 * n
  {
    forall k {:trigger Re(full, k)} :: 1 <= k < n / 2 ==>
      Re(full, n - k) == Re(full, k) && Im(full, n - k) == -Im(full, k)
  }

  /** The forward path's output is conjugate symmetric. */
  lemma FullSpectrumConjugateSymmetric(packed: seq<real>, nyquistImag: real)
    requires |packed| >= 2 && |packed| % 2 == 0
    ensures ConjugateSymmetric(FullSpectrum(packed, nyquistImag), |packed|)
  {
    var n, full := |packed|, FullSpectrum(packed, nyquistImag);
    forall k | 1 <= k < n / 2
      ensures Re(full, n - k) == Re(full, k) && Im(full, n - k) == -Im(full, k)
    {
      assert full[2 * k] == full[2..n][2 * k - 2];
      assert full[2 * k + 1] == full[2..n][2 * k - 1];
    }
  }

  /** The inverse path's only pre-fixup: the Nyquist real at slot n goes back
      into slot 1, where the inverse real FFT expects it. */
  function PackNyquist(buf: seq<real>, n: nat): (r: seq<real>)
    requires 1 < n < |buf|
    ensures |r| == |buf| && r[1] == buf[n]
    ensures forall k :: 0 <= k < |buf| && k != 1 ==> r[k] == buf[k]
  {
    buf[1 := buf[n]]
  }

  /** Repacking undoes the forward fixups on the first n slots: the inverse
      transform reads exactly the packed spectrum the forward transform
      produced, whatever the Nyquist imaginary slot holds. */
  lemma {:induction false} NyquistRoundTrip(packed: seq<real>, nyquistImag: real)
    requires |packed| >= 2 && |packed| % 2 == 0
    ensures PackNyquist(FullSpectrum(packed, nyquistImag), |packed|)[..|packed|] == packed
  {
    var n, full := |packed|, FullSpectrum(packed, nyquistImag);
    var back := PackNyquist(full, n)[..n];
    forall k | 0 <= k < n
      ensures back[k] == packed[k]
    {
      if 2 <= k {
        assert full[k] == full[2..n][k - 2];
      }
    }
  }

  /** r2cfft(pInstance, pIn, pOut, fftLength, inverseFlag).
      Inverse (flag nonzero): pIn[1] := pIn[fftLength], then the inverse
      transform, and nothing after it.
      Forward (flag zero): the transform, then bins 1..n/2-1 conjugated into
      pOut[n+2..2n), that run's pairs reversed, the Nyquist real moved from
      pOut[1] to pOut[n] and pOut[1] zeroed. pOut[n+1] is never written. */
  method R2cFft(s: RfftFastInstance, pIn: array<real>, pOut: array<real>, fftLength: nat, inverseFlag: UInt8)
    requires pIn != pOut
    requires fftLength == s.fftLenRfft && fftLength >= 2 && fftLength % 2 == 0
    requires fftLength <= pIn.Length && fftLength <= pOut.Length
    requires inverseFlag != 0 ==> fftLength < pIn.Length
    requires inverseFlag == 0 ==> 2 * fftLength <= pOut.Length
    modifies pIn, pOut
    ensures inverseFlag != 0 ==>
              var spectrum := PackNyquist(old(pIn[..]), fftLength)[..fftLength];
              && pOut[..] == Apply(s.output, spectrum, true) + old(pOut[fftLength..])
              && pIn[..] == Apply(s.scratch, spectrum, true) + old(pIn[fftLength..])
    ensures inverseFlag == 0 ==>
              var packed := Apply(s.output, old(pIn[..fftLength]), false);
              && pOut[..] == FullSpectrum(packed, old(pOut[fftLength + 1])) + old(pOut[2 * fftLength..])
              && pIn[..] == Apply(s.scratch, old(pIn[..fftLength]), false) + old(pIn[fftLength..])
  {
    if inverseFlag != 0 {
      pIn[1] := pIn[fftLength];
      assert pIn[..fftLength] == PackNyquist(old(pIn[..]), fftLength)[..fftLength];
    }
    RfftFast(s, pIn, pOut, inverseFlag);
    if inverseFlag != 0 {
      return;
    }
    ghost var scratched := pIn[..];
    assert pOut[..fftLength] == Apply(s.output, old(pIn[..fftLength]), false);
    assert pOut[2 * fftLength..] == old(pOut[2 * fftLength..]);
    PostFixup(pOut, fftLength);
    assert pIn[..] == scratched;
  }

  /** The forward path after the transform, on the buffer it left behind:
      conjugate bins 1..n/2-1 into pOut[n+2..2n), reverse that run's pairs
      with cmplxSwap, move the Nyquist real from pOut[1] to pOut[n] and zero
      pOut[1]. The result is the full spectrum of the packed first n slots;
      pOut[n+1] and everything from pOut[2n] on keep their values. */
  method PostFixup(pOut: array<real>, fftLength: nat)
    requires fftLength >= 2 && fftLength % 2 == 0 && 2 * fftLength <= pOut.Length
    modifies pOut
    ensures pOut[..] == FullSpectrum(old(pOut[..fftLength]), old(pOut[fftLength + 1])) + old(pOut[2 * fftLength..])
  {
    ghost var p0 := pOut[..];
    assert 2 + 2 * (fftLength / 2 - 1) == fftLength;
    CmplxConj(pOut, 2, fftLength + 2, fftLength / 2 - 1);
    ghost var p1 := pOut[..];
    CmplxSwap(pOut, fftLength + 2, fftLength - 2);
    ghost var p2 := pOut[..];
    pOut[fftLength] := pOut[1];
    pOut[1] := 0.0;
    PostFixupSteps(p0, p1, p2, pOut[..], fftLength);
  }

  /** The four forward fixups, applied in order to the buffer `p0` that the
      transform left behind, produce the full spectrum of its first n slots,
      with slot n+1 and everything from slot 2n on unchanged. */
  lemma PostFixupSteps(p0: seq<real>, p1: seq<real>, p2: seq<real>, p3: seq<real>, n: nat)
    requires n >= 2 && n % 2 == 0 && 2 * n <= |p0|
    requires p1 == p0[..n + 2] + Conjugated(p0[2..n]) + p0[2 * n..]
    requires p2 == p1[..n + 2] + ReversePairs(p1[n + 2..2 * n]) + p1[2 * n..]
    requires p3 == p2[n := p2[1]][1 := 0.0]
    ensures p3 == FullSpectrum(p0[..n], p0[n + 1]) + p0[2 * n..]
  {
    assert p1[n + 2..2 * n] == Conjugated(p0[2..n]);
    assert p0[..n][2..] == p0[2..n];
    var full := FullSpectrum(p0[..n], p0[n + 1]);
    assert full == [p0[0], 0.0] + p0[2..n] + [p0[1], p0[n + 1]] + p2[n + 2..2 * n];
    forall k | 0 <= k < |p3|
      ensures p3[k] == (full + p0[2 * n..])[k]
    {
      if k < n + 2 {
        assert p2[k] == p1[k] == p0[k];
      } else if k >= 2 * n {
        assert p2[k] == p1[k] == p0[k];
      }
    }
  }

  /** The caller's round trip: a forward r2cfft from `signal` into `spectrum`,
      then an inverse r2cfft from `spectrum` back into `signal`. The
      repacking is invisible to it: the inverse transform reads exactly the
      packed spectrum the forward transform wrote. */
  method ForwardThenInverse(s: RfftFastInstance, signal: array<real>, spectrum: array<real>)
    requires signal != spectrum
    requires s.fftLenRfft >= 2 && s.fftLenRfft % 2 == 0
    requires signal.Length == s.fftLenRfft && spectrum.Length == 2 * s.fftLenRfft
    modifies signal, spectrum
    ensures signal[..] == Apply(s.output, Apply(s.output, old(signal[..]), false), true)
  {
    var n := s.fftLenRfft;
    assert signal[..n] == signal[..];
    ghost var packed := Apply(s.output, signal[..], false);
    ghost var nyquistImag := spectrum[n + 1];
    R2cFft(s, signal, spectrum, n, Forward);
    assert spectrum[..] == FullSpectrum(packed, nyquistImag);
    NyquistRoundTrip(packed, nyquistImag);
    R2cFft(s, spectrum, signal, n, Inverse);
    assert signal[..] == Apply(s.output, packed, true);
  }

  /** A 4-point spectrum with DC 2, bin 1 = 1 - 1i and Nyquist 0: the
      mirrored bin 3 is 1 + 1i, the exact conjugate of bin 1. */
  lemma FourPointExample()
    ensures FullSpectrum([2.0, 0.0, 1.0, -1.0], 0.0) == [2.0, 0.0, 1.0, -1.0, 0.0, 0.0, 1.0, 1.0]
  {
  }

  /** An 8-point unit impulse has the flat spectrum: every bin 1 + 0i in the
      packed layout (Nyquist real 1 in slot 1). After the forward fixups every
      bin is 1 + 0i except that bin 4's imaginary slot keeps what pOut[9]
      held before the call. */
  lemma ImpulseExample(nyquistImag: real)
    ensures FullSpectrum([1.0, 1.0, 1.0, 0.0, 1.0, 0.0, 1.0, 0.0], nyquistImag)
         == [1.0, 0.0, 1.0, 0.0, 1.0, 0.0, 1.0, 0.0, 1.0, nyquistImag, 1.0, 0.0, 1.0, 0.0, 1.0, 0.0]
  {
    var packed := [1.0, 1.0, 1.0, 0.0, 1.0, 0.0, 1.0, 0.0];
    var full := FullSpectrum(packed, nyquistImag);
    assert full[2..8] == packed[2..];
    assert full[2..8][0] == full[2] && full[2..8][1] == full[3] && full[2..8][2] == full[4];
    assert full[2..8][3] == full[5] && full[2..8][4] == full[6] && full[2..8][5] == full[7];
    // bins 7, 6, 5 mirror bins 1, 2, 3
    assert full[2 * (|packed| - 1)] == packed[2 * 1] && full[2 * (|packed| - 1) + 1] == -packed[2 * 1 + 1];
    assert full[2 * (|packed| - 2)] == packed[2 * 2] && full[2 * (|packed| - 2) + 1] == -packed[2 * 2 + 1];
    assert full[2 * (|packed| - 3)] == packed[2 * 3] && full[2 * (|packed| - 3) + 1] == -packed[2 * 3 + 1];
  }
}
