// cmplxSwap: in-place reversal of the order of interleaved (real, imaginary)
// pairs in a run of scalars.

module PairSwap {

  /** The run `s` of interleaved (re, im) pairs with its pairs in reverse
      order, the last pair first: pair p of the result is pair |s|/2 - 1 - p
      of `s`, its re and im slots in their own order. */
  function ReversePairs<T>(s: seq<T>): (r: seq<T>)
    requires |s| % 2 == 0
    ensures |r| == |s|
    ensures forall p :: 0 <= p && 2 * p < |s| ==>
              r[2 * p] == s[|s| - 2 - 2 * p] && r[2 * p + 1] == s[|s| - 1 - 2 * p]
    decreases |s|
  {
    if |s| == 0 then [] else ReversePairs(s[2..]) + s[..2]
  }

  /** Reversing the pair order twice gives the run back. */
  lemma {:induction false} ReversePairsInvolutive<T>(s: seq<T>)
    requires |s| % 2 == 0
    ensures ReversePairs(ReversePairs(s)) == s
  {
    var r, n := ReversePairs(s), |s|;
    forall k | 0 <= k < n
      ensures ReversePairs(r)[k] == s[k]
    {
      var p := k / 2;
      assert r[n - 2 - 2 * p] == s[2 * p] && r[n - 1 - 2 * p] == s[2 * p + 1] by {
        var q := n / 2 - 1 - p;
        assert n - 2 - 2 * p == 2 * q && n - 2 - 2 * q == 2 * p;
      }
    }
  }

  /** An empty run and a run of one pair are their own pair reversal. */
  lemma ReversePairsShort<T>(s: seq<T>)
    requires |s| == 0 || |s| == 2
    ensures ReversePairs(s) == s
  {
  }

  /** The state of cmplxSwap's loop once every pair starting below scalar
      `i` of the run has traded places with its mirror: both ends of the run
      hold the reversed pairs, the middle and everything outside the run are
      untouched. */
  ghost predicate SwappedUpTo(cur: seq<real>, orig: seq<real>, base: nat, size: nat, i: nat)
    requires |cur| == |orig| && size % 2 == 0 && base + size <= |orig|
  {
    OutsideKept(cur, orig, base, size) && EndsReversed(cur, orig, base, size, i) && MiddleKept(cur, orig, base, size, i)
  }

  ghost predicate OutsideKept(cur: seq<real>, orig: seq<real>, base: nat, size: nat)
    requires |cur| == |orig| && base + size <= |orig|
  {
    forall j :: 0 <= j < |cur| && !(base <= j < base + size) ==> cur[j] == orig[j]
  }

  ghost predicate EndsReversed(cur: seq<real>, orig: seq<real>, base: nat, size: nat, i: nat)
    requires |cur| == |orig| && size % 2 == 0 && base + size <= |orig|
  {
    forall p :: 0 <= p && 2 * p < size && (2 * p < i || size - i <= 2 * p) ==>
      cur[base + 2 * p] == orig[base + size - 2 - 2 * p] && cur[base + 2 * p + 1] == orig[base + size - 1 - 2 * p]
  }

  ghost predicate MiddleKept(cur: seq<real>, orig: seq<real>, base: nat, size: nat, i: nat)
    requires |cur| == |orig| && base + size <= |orig|
  {
    forall j :: base + i <= j < base + size - i ==> cur[j] == orig[j]
  }

  /** `s` with the pair at `lo` and the pair at `hi` exchanged, as the loop
      body does it through two temporaries (lo == hi leaves `s` as it is). */
  function SwapPairsAt(s: seq<real>, lo: nat, hi: nat): (r: seq<real>)
    requires lo <= hi && hi + 1 < |s| && (lo == hi || lo + 1 < hi)
    ensures |r| == |s|
    ensures r[lo] == s[hi] && r[lo + 1] == s[hi + 1] && r[hi] == s[lo] && r[hi + 1] == s[lo + 1]
    ensures forall j :: 0 <= j < |s| && j != lo && j != lo + 1 && j != hi && j != hi + 1 ==> r[j] == s[j]
  {
    s[lo := s[hi]][lo + 1 := s[hi + 1]][hi := s[lo]][hi + 1 := s[lo + 1]]
  }

  /** One pass of cmplxSwap's loop body, which swaps the pair at scalar i of
      the run with the pair at scalar size - i - 2, extends the reversed ends
      by a pair. */
  lemma SwapStep(before: seq<real>, orig: seq<real>, base: nat, size: nat, i: nat)
    requires |before| == |orig| && size % 2 == 0 && base + size <= |orig|
    requires i % 2 == 0 && i < size / 2
    requires SwappedUpTo(before, orig, base, size, i)
    ensures SwappedUpTo(SwapPairsAt(before, base + i, base + size - i - 2), orig, base, size, i + 2)
  {
    var after := SwapPairsAt(before, base + i, base + size - i - 2);
    StepOutside(before, after, orig, base, size, i);
    StepEnds(before, after, orig, base, size, i);
    StepMiddle(before, after, orig, base, size, i);
  }

  lemma StepOutside(before: seq<real>, after: seq<real>, orig: seq<real>, base: nat, size: nat, i: nat)
    requires |before| == |orig| && size % 2 == 0 && base + size <= |orig|
    requires i % 2 == 0 && i < size / 2
    requires after == SwapPairsAt(before, base + i, base + size - i - 2)
    requires OutsideKept(before, orig, base, size)
    ensures OutsideKept(after, orig, base, size)
  {
    forall j | 0 <= j < |after| && !(base <= j < base + size)
      ensures after[j] == orig[j]
    {
      assert after[j] == before[j];
    }
  }

  lemma StepEnds(before: seq<real>, after: seq<real>, orig: seq<real>, base: nat, size: nat, i: nat)
    requires |before| == |orig| && size % 2 == 0 && base + size <= |orig|
    requires i % 2 == 0 && i < size / 2
    requires after == SwapPairsAt(before, base + i, base + size - i - 2)
    requires EndsReversed(before, orig, base, size, i) && MiddleKept(before, orig, base, size, i)
    ensures EndsReversed(after, orig, base, size, i + 2)
  {
    var lo, hi := base + i, base + size - i - 2;
    forall p | 0 <= p && 2 * p < size && (2 * p < i + 2 || size - i - 2 <= 2 * p)
      ensures after[base + 2 * p] == orig[base + size - 2 - 2 * p]
      ensures after[base + 2 * p + 1] == orig[base + size - 1 - 2 * p]
    {
      if 2 * p < i || size - i <= 2 * p {
        assert after[base + 2 * p] == before[base + 2 * p];
        assert after[base + 2 * p + 1] == before[base + 2 * p + 1];
      } else if 2 * p == i {
        assert after[lo] == before[hi] == orig[hi] && after[lo + 1] == before[hi + 1] == orig[hi + 1];
      } else {
        assert base + 2 * p == hi;
        assert after[hi] == before[lo] == orig[lo] && after[hi + 1] == before[lo + 1] == orig[lo + 1];
      }
    }
  }

  lemma StepMiddle(before: seq<real>, after: seq<real>, orig: seq<real>, base: nat, size: nat, i: nat)
    requires |before| == |orig| && size % 2 == 0 && base + size <= |orig|
    requires i % 2 == 0 && i < size / 2
    requires after == SwapPairsAt(before, base + i, base + size - i - 2)
    requires MiddleKept(before, orig, base, size, i)
    ensures MiddleKept(after, orig, base, size, i + 2)
  {
    forall j | base + i + 2 <= j < base + size - i - 2
      ensures after[j] == orig[j]
    {
      assert after[j] == before[j];
    }
  }

  /** Once the loop index reaches the middle of the run, every pair of it has
      been reversed. */
  lemma SwappedAll(cur: seq<real>, orig: seq<real>, base: nat, size: nat, i: nat)
    requires |cur| == |orig| && size % 2 == 0 && base + size <= |orig|
    requires size / 2 <= i && SwappedUpTo(cur, orig, base, size, i)
    ensures cur == orig[..base] + ReversePairs(orig[base..base + size]) + orig[base + size..]
  {
    var run := orig[base..base + size];
    forall k | 0 <= k < |cur|
      ensures cur[k] == (orig[..base] + ReversePairs(run) + orig[base + size..])[k]
    {
      if base <= k < base + size {
        var p := (k - base) / 2;
        if k == base + 2 * p {
          assert cur[base + 2 * p] == orig[base + size - 2 - 2 * p];
          assert ReversePairs(run)[2 * p] == run[size - 2 - 2 * p];
        } else {
          assert k == base + 2 * p + 1;
          assert cur[base + 2 * p + 1] == orig[base + size - 1 - 2 * p];
          assert ReversePairs(run)[2 * p + 1] == run[size - 1 - 2 * p];
        }
      }
    }
  }

  /** cmplxSwap on the `size` scalars starting at `base` (the C code is
      handed the pointer `&cmplx[base]`): reverses the order of the pairs in
      that run and leaves every other slot of the array as it was. */
  method CmplxSwap(cmplx: array<real>, base: nat, size: nat)
    requires size % 2 == 0 && base + size <= cmplx.Length
    modifies cmplx
    ensures cmplx[..] == old(cmplx[..base]) + ReversePairs(old(cmplx[base..base + size])) + old(cmplx[base + size..])
  {
    ghost var orig := cmplx[..];
    var i := 0;
    while i < size / 2
      invariant i % 2 == 0
      invariant i <= size / 2 + 1
      invariant SwappedUpTo(cmplx[..], orig, base, size, i)
    {
      ghost var before := cmplx[..];
      var re := cmplx[base + i];
      var im := cmplx[base + i + 1];
      cmplx[base + i] := cmplx[base + size - i - 2];
      cmplx[base + i + 1] := cmplx[base + size - i - 1];
      cmplx[base + size - i - 2] := re;
      cmplx[base + size - i - 1] := im;
      SwapStep(before, orig, base, size, i);
      assert cmplx[..] == SwapPairsAt(before, base + i, base + size - i - 2);
      i := i + 2;
    }
    SwappedAll(cmplx[..], orig, base, size, i);
  }
}
