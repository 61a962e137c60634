/**
 * The mutable write-back proxy. A proxy owns a local copy of a block and
 * remembers the window of the buffer it came from; releasing it
 * copies the first `len` lanes of the local block back into that window.
 * Buffers are immutable sequences here, so the write-back is a splice.
 */
module Proxies {

  /**
   * A local block `data` plus its restore window `[start, start + len)` in
   * the slice. `len` is the lane count for a full block and the
   * remainder length for the padded tail block.
   */
  datatype MutProxy<T> = MutProxy(data: seq<T>, start: nat, len: nat)

  /** The window lies inside `mem` and the local block covers it. */
  predicate Fits<T>(p: MutProxy<T>, mem: seq<T>)
  {
    p.start + p.len <= |mem| && p.len <= |p.data|
  }

  /** Whether position `k` of the buffer lies in the proxy's window. */
  predicate InWindow<T>(p: MutProxy<T>, k: int)
  {
    p.start <= k < p.start + p.len
  }

  /**
   * Releasing (dropping) the proxy: the window receives exactly the first
   * `len` lanes of the local block; every other position keeps its value
   * and the buffer keeps its length.
   */
  function Release<T>(mem: seq<T>, p: MutProxy<T>): (r: seq<T>)
    requires Fits(p, mem)
    ensures |r| == |mem|
    ensures forall k :: 0 <= k < |mem| && !InWindow(p, k) ==> r[k] == mem[k]
    ensures forall k :: 0 <= k < p.len ==> r[p.start + k] == p.data[k]
  {
    mem[..p.start] + p.data[..p.len] + mem[p.start + p.len..]
  }

  /**
   * Lanes of the local block past `len` (the padding lanes of a tail
   * block) never reach the buffer: two proxies that agree on the first
   * `len` lanes release identically.
   */
  lemma PaddingNeverWritten<T>(mem: seq<T>, p: MutProxy<T>, q: MutProxy<T>)
    requires Fits(p, mem) && Fits(q, mem)
    requires p.start == q.start && p.len == q.len
    requires p.data[..p.len] == q.data[..q.len]
    ensures Release(mem, p) == Release(mem, q)
  {
  }

  /** A proxy whose window still holds what the buffer holds writes nothing new. */
  lemma UntouchedReleaseIsIdentity<T>(mem: seq<T>, p: MutProxy<T>)
    requires Fits(p, mem)
    requires p.data[..p.len] == mem[p.start .. p.start + p.len]
    ensures Release(mem, p) == mem
  {
    assert mem[..p.start] + mem[p.start .. p.start + p.len] + mem[p.start + p.len..] == mem;
  }

  /**
   * Proxies over disjoint windows commute: the order in which two blocks
   * are released does not matter, which is why distinct block indices may
   * be handled independently.
   */
  lemma {:induction false} DisjointReleasesCommute<T>(mem: seq<T>, p: MutProxy<T>, q: MutProxy<T>)
    requires Fits(p, mem) && Fits(q, mem)
    requires p.start + p.len <= q.start || q.start + q.len <= p.start
    ensures Release(Release(mem, p), q) == Release(Release(mem, q), p)
  {
    var mp, mq := Release(mem, p), Release(mem, q);
    var a, b := Release(mp, q), Release(mq, p);
    assert |a| == |b|;
    forall k | 0 <= k < |a|
      ensures a[k] == b[k]
    {
      ReleaseAt(mem, p, k);
      ReleaseAt(mem, q, k);
      ReleaseAt(mp, q, k);
      ReleaseAt(mq, p, k);
    }
  }

  /** One position of a released buffer. */
  lemma ReleaseAt<T>(mem: seq<T>, p: MutProxy<T>, k: nat)
    requires Fits(p, mem) && k < |mem|
    ensures Release(mem, p)[k] == if InWindow(p, k) then p.data[k - p.start] else mem[k]
  {
    if InWindow(p, k) {
      assert Release(mem, p)[p.start + (k - p.start)] == p.data[k - p.start];
    }
  }
}
