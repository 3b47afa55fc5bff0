/**
 * The bounded rolling window both trackers keep: a Python list that is
 * appended to and, when it grows past its capacity, loses its first
 * element through `pop(0)`.
 */
module Fifo {

  /** `buf.append(x)` followed by `if len(buf) > k: buf.pop(0)`. */
  function Push<T>(buf: seq<T>, x: T, k: nat): (r: seq<T>)
    ensures |buf| <= k ==> |r| <= k
    ensures k >= 1 ==> |r| >= 1 && r[|r| - 1] == x
  {
    var grown := buf + [x];
    if |grown| > k then grown[1..] else grown
  }

  /** The last min(|h|, k) elements of `h`, in their original order. */
  function LastK<T>(h: seq<T>, k: nat): (r: seq<T>)
    ensures |r| == if |h| <= k then |h| else k
    ensures forall i :: 0 <= i < |r| ==> r[i] == h[|h| - |r| + i]
  {
    if |h| <= k then h else h[|h| - k..]
  }

  /**
   * Push keeps the window equal to the last k inputs: if the buffer held the
   * last k of `h`, after pushing `x` it holds the last k of `h + [x]`.
   */
  lemma PushKeepsLastK<T>(h: seq<T>, x: T, k: nat)
    ensures Push(LastK(h, k), x, k) == LastK(h + [x], k)
  {
    var h' := h + [x];
    if |h| >= k {
      var w := LastK(h, k);
      assert |w| == k;
      if k == 0 {
        assert Push(w, x, k) == [];
      } else {
        assert Push(w, x, k) == w[1..] + [x];
        assert LastK(h', k) == h'[|h'| - k..];
        forall i | 0 <= i < k
          ensures (w[1..] + [x])[i] == h'[|h'| - k..][i]
        {
          if i < k - 1 {
            assert (w[1..] + [x])[i] == w[i + 1] == h[|h| - k + i + 1];
          }
        }
      }
    }
  }

  /**
   * Pushing onto a full buffer evicts exactly its oldest entry; pushing onto
   * a buffer with room evicts nothing.
   */
  lemma PushEvictsOldest<T>(buf: seq<T>, x: T, k: nat)
    requires |buf| <= k
    ensures |buf| == k && k >= 1 ==> Push(buf, x, k) == buf[1..] + [x]
    ensures |buf| < k ==> Push(buf, x, k) == buf + [x]
  {
    if |buf| == k && k >= 1 {
      assert (buf + [x])[1..] == buf[1..] + [x];
    }
  }

}
