/**
 * Index arithmetic that splits a flat buffer of `len` elements into full
 * blocks of `lanes` elements plus a remainder ("rest") at the tail.
 */
module Blocks {

  /** Number of trailing elements that do not fill a whole block. */
  function Rest(len: nat, lanes: nat): nat
    requires lanes > 0
  {
    len % lanes
  }

  /** Length of the block-aligned prefix ("main region"). */
  function Main(len: nat, lanes: nat): nat
    requires lanes > 0
  {
    len - Rest(len, lanes)
  }

  /** Number of full blocks, computed from the main region as the Rust implementation does. */
  function FullBlockCount(len: nat, lanes: nat): nat
    requires lanes > 0
  {
    Main(len, lanes) / lanes
  }

  /** The decomposition `len == count * lanes + rest` with `rest < lanes`. */
  lemma Decomposition(len: nat, lanes: nat)
    requires lanes > 0
    ensures FullBlockCount(len, lanes) == len / lanes
    ensures Main(len, lanes) == FullBlockCount(len, lanes) * lanes
    ensures Rest(len, lanes) < lanes
    ensures Main(len, lanes) + Rest(len, lanes) == len
    ensures Rest(len, lanes) == 0 <==> Main(len, lanes) == len
  {
    var q, r := len / lanes, len % lanes;
    assert len == q * lanes + r;
    DivExact(q, lanes);
  }

  /** Dividing an exact multiple gives back the factor. */
  lemma DivExact(q: nat, lanes: nat)
    requires lanes > 0
    ensures (q * lanes) / lanes == q
  {
    var d, m := (q * lanes) / lanes, (q * lanes) % lanes;
    assert (q - d) * lanes == m;
    MulAwayFromZero(q - d, lanes);
  }

  /** A non-zero multiple of `lanes` is at least `lanes` away from zero. */
  lemma MulAwayFromZero(k: int, lanes: nat)
    requires lanes > 0
    ensures k >= 1 ==> k * lanes >= lanes
    ensures k <= -1 ==> k * lanes <= 0 - lanes as int
  {
    if k >= 1 {
      assert k * lanes == (k - 1) * lanes + lanes;
    } else if k <= -1 {
      assert k * lanes == (k + 1) * lanes - lanes as int;
    }
  }

  /** Multiplication by a natural number is monotone. */
  lemma MulMono(a: nat, b: nat, lanes: nat)
    requires a <= b
    ensures a * lanes <= b * lanes
  {
    var d := b - a;
    assert b * lanes == a * lanes + d * lanes;
  }

  /** Block `i` of `count` blocks lies inside the main region. */
  lemma BlockInside(i: nat, count: nat, lanes: nat)
    requires i < count
    ensures i * lanes + lanes <= count * lanes
  {
    MulMono(i + 1, count, lanes);
  }

  /** Block `i`: the `lanes` elements starting at offset `i * lanes`. */
  function Block<T>(buf: seq<T>, lanes: nat, i: nat): (b: seq<T>)
    requires i * lanes + lanes <= |buf|
    ensures |b| == lanes
    ensures forall k :: 0 <= k < lanes ==> b[k] == buf[i * lanes + k]
  {
    buf[i * lanes .. i * lanes + lanes]
  }

  /**
   * The padded remainder block: the padding vector with its first `rest`
   * lanes overwritten by the tail of the buffer.
   */
  function PadTail<T>(buf: seq<T>, lanes: nat, pad: seq<T>): (p: seq<T>)
    requires lanes > 0 && |pad| == lanes
    ensures |p| == lanes
    ensures p[..Rest(|buf|, lanes)] == buf[Main(|buf|, lanes)..]
    ensures p[Rest(|buf|, lanes)..] == pad[Rest(|buf|, lanes)..]
  {
    var rest, main := Rest(|buf|, lanes), Main(|buf|, lanes);
    var p := seq(lanes, k requires 0 <= k < lanes => if k < rest then buf[main + k] else pad[k]);
    assert p[..rest] == buf[main..];
    p
  }

  /** Concatenation of a sequence of blocks. */
  function Flatten<T>(blocks: seq<seq<T>>): seq<T>
  {
    if |blocks| == 0 then [] else Flatten(blocks[..|blocks| - 1]) + blocks[|blocks| - 1]
  }

  /** The first `n` full blocks of `buf`, in order. */
  function FullBlocks<T>(buf: seq<T>, lanes: nat, n: nat): (bs: seq<seq<T>>)
    requires n * lanes <= |buf|
    ensures |bs| == n
  {
    seq(n, i requires 0 <= i < n => (BlockInside(i, n, lanes); Block(buf, lanes, i)))
  }

  /** The first `n` blocks, laid end to end, are exactly the first `n * lanes` elements. */
  lemma {:induction false} FlattenFullBlocks<T>(buf: seq<T>, lanes: nat, n: nat)
    requires n * lanes <= |buf|
    ensures Flatten(FullBlocks(buf, lanes, n)) == buf[..n * lanes]
  {
    if n > 0 {
      var bs := FullBlocks(buf, lanes, n);
      MulMono(n - 1, n, lanes);
      assert (n - 1) * lanes + lanes == n * lanes;
      assert bs[..n - 1] == FullBlocks(buf, lanes, n - 1);
      FlattenFullBlocks(buf, lanes, n - 1);
      assert bs[n - 1] == buf[(n - 1) * lanes .. n * lanes];
      assert buf[..(n - 1) * lanes] + buf[(n - 1) * lanes .. n * lanes] == buf[..n * lanes];
    }
  }

  /**
   * All full blocks, followed by the first `rest` lanes of the padded
   * remainder, reproduce the buffer exactly.
   */
  lemma Reassemble<T>(buf: seq<T>, lanes: nat, pad: seq<T>)
    requires lanes > 0 && |pad| == lanes
    ensures FullBlockCount(|buf|, lanes) * lanes <= |buf|
    ensures Flatten(FullBlocks(buf, lanes, FullBlockCount(|buf|, lanes))) + PadTail(buf, lanes, pad)[..Rest(|buf|, lanes)] == buf
  {
    Decomposition(|buf|, lanes);
    var c := FullBlockCount(|buf|, lanes);
    FlattenFullBlocks(buf, lanes, c);
    assert buf[..c * lanes] + buf[Main(|buf|, lanes)..] == buf;
  }
}
