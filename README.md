# r2cfft in Dafny

A model of `r2cfft`, a thin wrapper around CMSIS-DSP's real FFT
(`arm_rfft_fast_f32`). The model covers the buffer-layout conversion the
wrapper does around that call. The wrapper exists twice in the repository,
as near-identical copies: `lib/r2cfft/r2cfft.c` and `src/r2cfft.c`. One
model serves both copies, because their statements are the same.

- **cmplxSwap** (`pair_swap.dfy`, module `PairSwap`): reverses, in place,
  the order of the interleaved (real, imaginary) pairs in a run of `size`
  scalars. It uses the two-ended swap loop `for (i = 0; i < size/2; i += 2)`.
  The model keeps the C loop and its temporaries on an `array<real>`. The
  pointer `&pOut[fftLength + 2]` becomes an offset `base`. The loop is
  proved against `ReversePairs`, a recursive definition of pair reversal.
- **r2cfft** (`r2cfft.dfy`, module `Repack`), on the inverse path (flag
  nonzero): copies `pIn[fftLength]` into `pIn[1]`, runs the inverse
  transform, and returns.
- **r2cfft**, on the forward path (flag zero): runs the transform, then
  applies four fix-ups to `pOut` in place:
  - conjugates bins 1..n/2-1 into `pOut[n+2..2n)`;
  - reverses that run's pairs with cmplxSwap;
  - copies the packed Nyquist real value from `pOut[1]` to `pOut[n]`;
  - zeroes `pOut[1]`.

  `FullSpectrum` is the layout this produces. Its contract states the
  layout bin by bin: DC, bins 1..n/2-1, the Nyquist bin, and bins
  n/2+1..n-1 as the conjugates of bins n/2-1..1.
- **The CMSIS collaborators** (`cmsis.dfy`, module `Cmsis`):
  - `arm_rfft_fast_f32` is a black box. An `RfftFastInstance` holds the
    transform length and two uninterpreted kernels: what the routine writes
    to `pOut[k]`, and what it leaves in `pIn[k]` (the source says "input is
    modified"). Both are functions of the first `fftLen` input scalars and
    the direction.
  - `arm_cmplx_conj_f32` is modelled by its documented effect.
- The `TransformDirection` values `Forward = 0` and `Inverse = 1`
  (lib/r2cfft/r2cfft.h:19-23) are the constants `Repack.Forward` and
  `Repack.Inverse`. Any nonzero `uint8_t` flag selects the inverse path.

Float values are modelled as `real`. The core only copies values, negates
them and stores the constant 0, so every equality holds exactly.

Where the code and the documentation disagree, the model follows the code:

- The doc comment of `cmplxSwap` (lib/r2cfft/r2cfft.c:20, src/r2cfft.c:18)
  says `size` counts complex values. The code treats it as a count of
  scalars, and the call site passes `fftLength - 2` scalars for
  `fftLength/2 - 1` pairs. The model's `size` counts scalars.
- The index comments inside the loop of both copies do not match the
  statements. The model follows the statements.
- In a full complex spectrum of a real signal, the Nyquist bin's imaginary
  part is 0. The code zeroes DC's imaginary slot `pOut[1]` but never writes
  the Nyquist imaginary slot `pOut[fftLength + 1]`. In the model that slot
  keeps whatever the caller's buffer held, and `FullSpectrum` takes that
  value as the parameter `nyquistImag`. In `src/main.cpp:33` the output
  buffer is not initialised, so the slot holds an unspecified value there.

## Model

| member | source | states |
|---|---|---|
| PairSwap.ReversePairs | src/r2cfft.c:24-33 | Defined recursively as "last pair first". For even length it proves that pair p of the result is old pair size/2-1-p, with real and imaginary kept in order. The length is unchanged. |
| PairSwap.ReversePairsInvolutive | src/r2cfft.c:20-35 | Reversing the pair order twice restores the run exactly: cmplxSwap is its own inverse. |
| PairSwap.ReversePairsShort | lib/r2cfft/r2cfft.c:26-41 | A run of 0 or 2 scalars is its own pair reversal. So cmplxSwap with size 0 changes nothing, and with size 2 it swaps pair 0 with itself. |
| PairSwap.SwapStep | lib/r2cfft/r2cfft.c:30-41 | One loop body swaps the pair at scalar i with the pair at scalar size-i-2 through two temporaries. Afterwards the reversed prefix and suffix have each grown by one pair, the middle is untouched, and nothing outside the run has changed. This also holds when the two pairs are the same middle pair. |
| PairSwap.CmplxSwap | lib/r2cfft/r2cfft.c:22-42 | Afterwards the `size` scalars at `base` hold the old run with its pairs reversed. Every slot outside `[base, base+size)` is unchanged, and the new state depends only on the old run. |
| Cmsis.Conjugated | lib/r2cfft/r2cfft.c:67 | The plain effect of arm_cmplx_conj_f32: for each pair j, `dst[2j] = src[2j]` and `dst[2j+1] = -src[2j+1]`. |
| Cmsis.CmplxConj | src/r2cfft.c:59 | The conjugates of the `numSamples` pairs at `src` are written to the run at `dst`. The two runs do not overlap, and every other slot is unchanged. |
| Cmsis.RfftFast | lib/r2cfft/r2cfft.c:61 | The transform writes only `pOut[0..fftLen)` and overwrites only `pIn[0..fftLen)`. Both results are functions of the old `pIn[0..fftLen)` and the direction. |
| Repack.MirroredHalf | lib/r2cfft/r2cfft.c:67-68 | After conjugating bins 1..n/2-1 and reversing that run's pairs, the pair at offset n-2k-2 of the run is the conjugate of bin k. |
| Repack.FullSpectrum | lib/r2cfft/r2cfft.c:67-70 | Forward layout, bin by bin. `pOut[0]` keeps DC and `pOut[1]` is 0. `pOut[2..n)` keeps the transform's bins 1..n/2-1. `pOut[n]` is the old `pOut[1]` (the Nyquist real), and `pOut[n+1]` keeps its prior value. For 1 ≤ k < n/2, `pOut[2(n-k)] == pOut[2k]` and `pOut[2(n-k)+1] == -pOut[2k+1]` of the packed output. |
| Repack.FullSpectrumConjugateSymmetric | src/r2cfft.c:59-60 | The forward output is conjugate symmetric: bin n-k is the conjugate of bin k for every 1 ≤ k ≤ n/2-1. |
| Repack.PackNyquist | src/r2cfft.c:48-52 | The inverse pre-fix-up changes only slot 1, which receives `pIn[fftLength]`. |
| Repack.NyquistRoundTrip | lib/r2cfft/r2cfft.c:56-70 | Applying the inverse pre-fix-up to a forward-repacked buffer restores `[0, n)` exactly to the transform's packed output, whatever the Nyquist imaginary slot held. |
| Repack.PostFixupSteps | lib/r2cfft/r2cfft.c:67-70 | The four forward fix-ups, composed in source order (conjugate, reverse, move the Nyquist real, zero slot 1), give exactly `FullSpectrum` of the packed prefix. Everything from `pOut[2n]` on is unchanged. |
| Repack.PostFixup | src/r2cfft.c:59-62 | The forward fix-ups on the array turn `pOut` into `FullSpectrum(old pOut[0..n), old pOut[n+1])`, followed by the unchanged rest of the array. |
| Repack.R2cFft | lib/r2cfft/r2cfft.c:54-71 | Inverse (flag nonzero): the transform reads the caller's `pIn[0..n)` with only slot 1 replaced by `pIn[n]`, and nothing runs after it. Forward (flag zero): `pOut` becomes the full spectrum of the transform's packed output, and `pOut[n+1]` and `pOut[2n..]` keep their prior values. On both paths, `pIn` beyond n is untouched. |
| Repack.ForwardThenInverse | src/main.cpp:42-46 | A forward r2cfft followed by an inverse r2cfft on the swapped buffers leaves in the signal buffer exactly the inverse transform of the forward transform's packed output. The repacking adds nothing and loses nothing. |
| Repack.FourPointExample | src/r2cfft.c:59-62 | For N = 4 with DC 2, bin 1 = 1-1i and Nyquist 0, the output is `[2,0, 1,-1, 0,0, 1,1]`: bin 3 = 1+1i, the exact conjugate of bin 1. |
| Repack.ImpulseExample | lib/r2cfft/r2cfft.c:67-70 | For N = 8 with an all-(1,0) packed spectrum (a unit impulse), every output bin is (1,0), except that bin 4's imaginary slot keeps its prior value. |

## Left out

- The numerics of `arm_rfft_fast_f32` (lib/r2cfft/r2cfft.c:61, src/r2cfft.c:53) are uninterpreted kernels. The model does not prove that the packed output is a DFT, or that a signal comes back from forward-then-inverse up to rounding. Floating-point arithmetic is outside Dafny's reach here.
- `arm_rfft_fast_init_f32` is not modelled. An `RfftFastInstance` is simply given with its length, and the model does not require that length to be a power of two in CMSIS's supported range.
- `float32_t` is modelled as `real`. The model ignores signed zero (conjugating 0 gives -0.0 in IEEE arithmetic), NaN and infinities. The core only copies and negates values, so no rounding occurs.
- PairSwap.CmplxSwap: requires an even `size`. For an odd size the C loop stays in bounds, but its result is not a pair reversal. No caller passes an odd size.
- Repack.R2cFft: requires `fftLength` to be even and at least 2. In C, `fftLength/2 - 1` and `fftLength - 2` wrap around as `size_t` below that, and the result would be out-of-bounds accesses.
- Repack.R2cFft: requires `pIn` and `pOut` to be distinct arrays. Aliased buffers are not modelled.
- Cmsis.CmplxConj: requires the source and destination runs to be disjoint, as at the only call site. Overlapping runs are not modelled.
- The whole of `src/main.cpp` is not modelled, apart from the call pattern at lines 42-46: USB serial set-up and printing, delays, `ARM_DWT_CYCCNT` cycle timing, signal loading and `exit`.
- `#pragma GCC optimize("O3")` (lib/r2cfft/r2cfft.c:14) has no effect on behaviour.
- The headers (lib/r2cfft/r2cfft.h, include/r2cfft.h) contain only declarations, apart from the direction constants modelled above.
