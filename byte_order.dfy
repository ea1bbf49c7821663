/**
 * The byte-order fixup of the MAVLink 0.9 encoder: `swap_bytes(ofs, len)`
 * exchanges adjacent bytes pairwise, as a function on the buffer contents.
 */
module ByteOrder {

  /**
   * How many pairs the loop `for (i = ofs; i < ofs + len; i += 2)` visits:
   * len / 2 rounded up, so an odd `len` also exchanges byte ofs+len-1 with
   * byte ofs+len, one past the span.
   */
  function PairCount(len: nat): nat
  {
    (len + 1) / 2
  }

  /** The buffer `s` after `swap_bytes(ofs, len)`. */
  function SwapPairs(s: seq<bv8>, ofs: nat, len: nat): (r: seq<bv8>)
    requires ofs + 2 * PairCount(len) <= |s|
    ensures |r| == |s|
  {
    seq(|s|, j requires 0 <= j < |s| =>
      if ofs <= j < ofs + 2 * PairCount(len) then
        (if (j - ofs) % 2 == 0 then s[j + 1] else s[j - 1])
      else s[j])
  }

  /** Pair k of the span is exchanged: the byte at ofs+2k and the byte at ofs+2k+1 trade places. */
  lemma SwapPairsExchanges(s: seq<bv8>, ofs: nat, len: nat, k: nat)
    requires ofs + 2 * PairCount(len) <= |s|
    requires k < PairCount(len)
    ensures SwapPairs(s, ofs, len)[ofs + 2 * k] == s[ofs + 2 * k + 1]
    ensures SwapPairs(s, ofs, len)[ofs + 2 * k + 1] == s[ofs + 2 * k]
  {
  }

  /** Bytes outside the visited pairs keep their values; for an even `len` that is everything outside [ofs, ofs+len). */
  lemma SwapPairsFrame(s: seq<bv8>, ofs: nat, len: nat, j: nat)
    requires ofs + 2 * PairCount(len) <= |s|
    requires j < |s| && (j < ofs || ofs + 2 * PairCount(len) <= j)
    ensures SwapPairs(s, ofs, len)[j] == s[j]
    ensures len % 2 == 0 ==> ofs + 2 * PairCount(len) == ofs + len
  {
  }

  /** Swapping twice restores the buffer. */
  lemma SwapPairsInvolution(s: seq<bv8>, ofs: nat, len: nat)
    requires ofs + 2 * PairCount(len) <= |s|
    ensures SwapPairs(SwapPairs(s, ofs, len), ofs, len) == s
  {
    var r := SwapPairs(s, ofs, len);
    var rr := SwapPairs(r, ofs, len);
    forall j | 0 <= j < |s|
      ensures rr[j] == s[j]
    {
      if ofs <= j < ofs + 2 * PairCount(len) {
        if (j - ofs) % 2 == 0 {
          assert (j + 1 - ofs) % 2 == 1;
        } else {
          assert (j - 1 - ofs) % 2 == 0;
        }
      }
    }
  }

  /** The swap is local: bytes around the span neither matter nor change. */
  lemma SwapPairsLocal(p: seq<bv8>, q: seq<bv8>, r: seq<bv8>, ofs: nat, len: nat)
    requires ofs + 2 * PairCount(len) <= |q|
    ensures SwapPairs(p + q + r, |p| + ofs, len) == p + SwapPairs(q, ofs, len) + r
  {
    var whole := SwapPairs(p + q + r, |p| + ofs, len);
    var parts := p + SwapPairs(q, ofs, len) + r;
    forall j | 0 <= j < |whole|
      ensures whole[j] == parts[j]
    {
      if |p| <= j < |p| + |q| {
        assert parts[j] == SwapPairs(q, ofs, len)[j - |p|];
      }
    }
  }

  /**
   * The loop of swap_bytes from index `i` on, one pass per pair: exchange
   * bytes i and i+1, then continue at i+2 while i < end.
   */
  function SwapFrom(s: seq<bv8>, i: nat, end: nat): (r: seq<bv8>)
    requires i <= |s| && (i < end ==> i + 2 * PairCount(end - i) <= |s|)
    ensures |r| == |s|
    decreases end - i
  {
    if i < end then SwapFrom(s[i := s[i + 1]][i + 1 := s[i]], i + 2, end) else s
  }

  /** Before the first pass nothing has moved. */
  lemma SwapPairsNone(s: seq<bv8>, ofs: nat)
    requires ofs <= |s|
    ensures SwapPairs(s, ofs, 0) == s
  {
    assert PairCount(0) == 0;
  }

  /** The effect of one more pass of the loop, at i = ofs + m with m even. */
  lemma SwapPairsStep(s: seq<bv8>, ofs: nat, m: nat)
    requires m % 2 == 0 && ofs + m + 2 <= |s|
    ensures ofs + 2 * PairCount(m) <= |s|
    ensures SwapPairs(s, ofs, m + 2)
         == SwapPairs(s, ofs, m)[ofs + m := s[ofs + m + 1]][ofs + m + 1 := s[ofs + m]]
  {
    assert PairCount(m) * 2 == m;
    assert PairCount(m + 2) * 2 == m + 2;
  }

  /** Only the number of visited pairs matters. */
  lemma SwapPairsSameCount(s: seq<bv8>, ofs: nat, len1: nat, len2: nat)
    requires PairCount(len1) == PairCount(len2)
    requires ofs + 2 * PairCount(len1) <= |s|
    ensures SwapPairs(s, ofs, len1) == SwapPairs(s, ofs, len2)
  {
  }

  /**
   * The pass-by-pass loop finishes the pairwise exchange: continuing from
   * the buffer with the first m bytes of the span swapped (m even) gives
   * the whole span swapped.
   */
  lemma {:induction false} SwapFromCompletes(s: seq<bv8>, ofs: nat, len: nat, m: nat)
    requires ofs + 2 * PairCount(len) <= |s|
    requires m % 2 == 0 && m <= 2 * PairCount(len)
    ensures ofs + m <= |s|
    ensures SwapFrom(SwapPairs(s, ofs, m), ofs + m, ofs + len) == SwapPairs(s, ofs, len)
    decreases 2 * PairCount(len) - m
  {
    if m < len {
      SwapPairsStep(s, ofs, m);
      SwapFromCompletes(s, ofs, len, m + 2);
    } else {
      assert PairCount(m) == PairCount(len);
      SwapPairsSameCount(s, ofs, m, len);
    }
  }

  /** swap_bytes's loop, run from the start of the span, computes SwapPairs. */
  lemma SwapFromIsSwapPairs(s: seq<bv8>, ofs: nat, len: nat)
    requires ofs + 2 * PairCount(len) <= |s|
    ensures SwapFrom(s, ofs, ofs + len) == SwapPairs(s, ofs, len)
  {
    SwapPairsNone(s, ofs);
    SwapFromCompletes(s, ofs, len, 0);
  }
}
