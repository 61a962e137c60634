/**
 * End-to-end properties of the engine, generalising the two usage
 * examples in the tests of `impatient`: summing a padded read-only buffer, and
 * adding one to every element through a (mutable, read-only) pair.
 * Element arithmetic is on unbounded integers.
 */
module Scenarios {
  import opened Wrappers
  import opened Blocks
  import opened Proxies
  import opened Vectorizers
  import opened Iter

  /** All lanes of all yielded block values, in yield order. */
  function Lanes<T>(items: seq<Item<T>>): seq<T>
  {
    if |items| == 0 then []
    else
      var last := items[|items| - 1];
      Lanes(items[..|items| - 1]) + (if last.Vector? then last.vector else [])
  }

  /** Sum of a sequence of integers. */
  function Sum(s: seq<int>): int
  {
    if |s| == 0 then 0 else Sum(s[..|s| - 1]) + s[|s| - 1]
  }

  /** Summing distributes over concatenation. */
  lemma {:induction false} SumConcat(a: seq<int>, b: seq<int>)
    ensures Sum(a + b) == Sum(a) + Sum(b)
    decreases |b|
  {
    if |b| > 0 {
      SumConcat(a, b[..|b| - 1]);
      assert (a + b)[..|a + b| - 1] == a + b[..|b| - 1];
    } else {
      assert a + b == a;
    }
  }

  /** A sequence of zeros sums to zero. */
  lemma {:induction false} SumZeros(s: seq<int>)
    requires forall k :: 0 <= k < |s| ==> s[k] == 0
    ensures Sum(s) == 0
    decreases |s|
  {
    if |s| > 0 {
      SumZeros(s[..|s| - 1]);
    }
  }

  /** `0 + 1 + ... + (n - 1)`, doubled, is `n * (n - 1)`. */
  lemma {:induction false} SumUpTo(n: nat)
    ensures 2 * Sum(seq(n, i => i)) == n * (n - 1)
  {
    if n > 0 {
      SumUpTo(n - 1);
      assert seq(n, i => i)[..n - 1] == seq(n - 1, i => i);
    }
  }

  /** The lanes of the first full blocks of a read-only slice are its prefix. */
  lemma {:induction false} LanesOfReadBlocks<T>(buf: seq<T>, lanes: nat, items: seq<Item<T>>)
    requires lanes > 0 && |items| * lanes <= |buf|
    requires forall k :: 0 <= k < |items| ==>
               InRange(ReadVectorizer(buf, lanes), k) && items[k] == Get(ReadVectorizer(buf, lanes), k)
    ensures Lanes(items) == buf[..|items| * lanes]
    decreases |items|
  {
    var n := |items|;
    if n > 0 {
      MulMono(n - 1, n, lanes);
      assert (n - 1) * lanes + lanes == n * lanes;
      LanesOfReadBlocks(buf, lanes, items[..n - 1]);
      var v := ReadVectorizer(buf, lanes);
      assert items[n - 1].vector == buf[(n - 1) * lanes .. n * lanes];
      assert buf[..(n - 1) * lanes] + buf[(n - 1) * lanes .. n * lanes] == buf[..n * lanes];
    }
  }

  /** Splitting a sequence and appending to its second half appends to the whole. */
  lemma SplitAndAppend<T>(buf: seq<T>, at: nat, tail: seq<T>)
    requires at <= |buf|
    ensures buf[..at] + (buf[at..] + tail) == buf + tail
  {
    assert buf[..at] + buf[at..] == buf;
  }

  /**
   * Laying end to end the full blocks of a read-only slice, followed by a
   * tail block that holds the remainder and then padding lanes, reproduces
   * the slice followed by those padding lanes.
   */
  lemma {:induction false} LanesOfPaddedRead<T>(buf: seq<T>, lanes: nat, pad: seq<T>, items: seq<Item<T>>)
    requires lanes > 0 && |pad| == lanes
    requires var c, rest := |buf| / lanes, Rest(|buf|, lanes);
      && |items| == c + (if rest == 0 then 0 else 1)
      && (forall k :: 0 <= k < c ==>
            InRange(ReadVectorizer(buf, lanes), k) && items[k] == Get(ReadVectorizer(buf, lanes), k))
      && (rest != 0 ==>
            var last := items[|items| - 1];
            && last.Vector? && |last.vector| == lanes
            && last.vector[..rest] == buf[Main(|buf|, lanes)..]
            && last.vector[rest..] == pad[rest..])
    ensures Lanes(items) == buf + PadBeyondTail(buf, lanes, pad)
  {
    Decomposition(|buf|, lanes);
    var c, rest, main := |buf| / lanes, Rest(|buf|, lanes), Main(|buf|, lanes);
    assert c * lanes == main;
    var blocks := items[..c];
    LanesOfReadBlocks(buf, lanes, blocks);
    if rest == 0 {
      assert items == blocks;
      assert buf[..main] == buf;
    } else {
      var p := items[|items| - 1].vector;
      assert items[..|items| - 1] == blocks;
      assert Lanes(items) == Lanes(blocks) + p;
      assert p == buf[main..] + pad[rest..] by {
        assert p == p[..rest] + p[rest..];
      }
      SplitAndAppend(buf, main, pad[rest..]);
    }
  }

  /**
   * Reading a slice with padding and laying every yielded block end to end
   * reproduces the slice, followed by the padding lanes past the tail.
   */
  lemma ReadLanesReproduceSource<T>(buf: seq<T>, lanes: nat, elemSize: nat, pad: seq<T>)
    requires lanes > 0 && |pad| == lanes && |buf| * elemSize <= ISIZE_MAX
    ensures var src := Slice(Shared, buf, lanes, elemSize);
      && VectorizePad(src, PadVector(pad)).Ok?
      && Lanes(Drain(VectorizePad(src, PadVector(pad)).value))
           == buf + PadBeyondTail(buf, lanes, pad)
  {
    var src := Slice(Shared, buf, lanes, elemSize);
    var it := VectorizePad(src, PadVector(pad)).value;
    var items := Pending(it);
    assert it.vectorizer == ReadVectorizer(buf, lanes);
    assert BlockCount(src) == |buf| / lanes;
    assert Rest(|buf|, lanes) != 0 ==> items[|items| - 1] == it.partial.value by {
      if Rest(|buf|, lanes) != 0 {
        assert HasRest(src);
      }
    }
    LanesOfPaddedRead(buf, lanes, pad, items);
  }

  /**
   * Reading with an all-zero padding vector and adding up every lane of
   * every yielded block gives the sum of the slice.
   */
  lemma ZeroPaddedSumIsSourceSum(buf: seq<int>, lanes: nat, elemSize: nat, zeros: seq<int>)
    requires lanes > 0 && |zeros| == lanes && |buf| * elemSize <= ISIZE_MAX
    requires forall k :: 0 <= k < lanes ==> zeros[k] == 0
    ensures var r := VectorizePad(Slice(Shared, buf, lanes, elemSize), PadVector(zeros));
      r.Ok? && Sum(Lanes(Drain(r.value))) == Sum(buf)
  {
    ReadLanesReproduceSource(buf, lanes, elemSize, zeros);
    ZeroPaddingAddsNothing(buf, lanes, zeros);
  }

  /** The padding lanes a tail block carries past the slice's end (none when aligned). */
  function PadBeyondTail<T>(buf: seq<T>, lanes: nat, pad: seq<T>): seq<T>
    requires lanes > 0 && |pad| == lanes
  {
    if Rest(|buf|, lanes) == 0 then [] else pad[Rest(|buf|, lanes)..]
  }

  /** Zero padding lanes do not change a sum. */
  lemma ZeroPaddingAddsNothing(buf: seq<int>, lanes: nat, zeros: seq<int>)
    requires lanes > 0 && |zeros| == lanes
    requires forall k :: 0 <= k < lanes ==> zeros[k] == 0
    ensures Sum(buf + PadBeyondTail(buf, lanes, zeros)) == Sum(buf)
  {
    var extra := PadBeyondTail(buf, lanes, zeros);
    assert forall k :: 0 <= k < |extra| ==> extra[k] == 0;
    SumConcat(buf, extra);
    SumZeros(extra);
  }

  /** The first usage example: the numbers 0 to 10, eight lanes, zero padding, sum to 55. */
  lemma ElevenNumbersInEightLanesSumTo55()
    ensures var r := VectorizePad(Slice(Shared, seq(11, i => i), 8, 2), PadVector(seq(8, _ => 0)));
      r.Ok? && Count(r.value) == 2 && Sum(Lanes(Drain(r.value))) == 55
  {
    ZeroPaddedSumIsSourceSum(seq(11, i => i), 8, 2, seq(8, _ => 0));
    SumUpTo(11);
  }

  /** `ones + s`: the block with one added to every lane. */
  function AddOne(s: seq<int>): (r: seq<int>)
    ensures |r| == |s| && forall k :: 0 <= k < |s| ==> r[k] == s[k] + 1
  {
    seq(|s|, k requires 0 <= k < |s| => s[k] + 1)
  }

  /**
   * The loop body of the second usage example, `*d = ones + s`, applied to
   * a (proxy, block) item: the proxy's local block becomes the read block
   * plus one. Other items are left alone.
   */
  function AssignIncremented(item: Item<int>): Item<int>
  {
    match item
    case Both(Proxy(p), Vector(s)) => Both(Proxy(p.(data := AddOne(s))), Vector(s))
    case _ => item
  }

  /**
   * Run the loop body on every item in order; each item is dropped at the
   * end of its iteration, which releases its proxy into the source.
   */
  function ForEachAssign(src: Source<int>, items: seq<Item<int>>): (r: Source<int>)
    requires forall k :: 0 <= k < |items| ==> ItemFits(src, AssignIncremented(items[k]))
    ensures SameShape(src, r)
    decreases |items|
  {
    if |items| == 0 then
      SameShapeReflexive(src);
      src
    else
      var before := ForEachAssign(src, items[..|items| - 1]);
      var item := AssignIncremented(items[|items| - 1]);
      ItemFitsShape(src, before, item);
      var after := ReleaseItem(before, item);
      SameShapeTransitive(src, before, after);
      after
  }

  /** Every source has its own shape. */
  lemma {:induction false} SameShapeReflexive<T>(src: Source<T>)
    ensures SameShape(src, src)
  {
    if src.Pair? {
      SameShapeReflexive(src.fst);
      SameShapeReflexive(src.snd);
    }
  }

  /** The destination after the first `m` elements have been replaced by `data[j] + 1`. */
  function Incremented(dst: seq<int>, data: seq<int>, m: nat): (r: seq<int>)
    requires |dst| == |data|
    ensures |r| == |dst|
  {
    seq(|dst|, j requires 0 <= j < |dst| => if j < m then data[j] + 1 else dst[j])
  }

  /** Writing back `data[w..w+n] + 1` into the window `[w, w+n)` extends the incremented prefix from `w` to `w + n`. */
  lemma IncrementWindow(dst: seq<int>, data: seq<int>, w: nat, n: nat, block: seq<int>)
    requires |dst| == |data| && w + n <= |dst| && n <= |block|
    requires forall t :: 0 <= t < n ==> block[t] == data[w + t]
    ensures Release(Incremented(dst, data, w), MutProxy(AddOne(block), w, n)) == Incremented(dst, data, w + n)
  {
    var a, b := Release(Incremented(dst, data, w), MutProxy(AddOne(block), w, n)), Incremented(dst, data, w + n);
    forall j | 0 <= j < |dst|
      ensures a[j] == b[j]
    {
      if w <= j < w + n {
        assert a[j] == AddOne(block)[j - w];
      }
    }
  }

  /** The items the iterator yields for the (mutable destination, read-only data) pair. */
  ghost predicate PairItem(item: Item<int>, data: seq<int>, start: nat, len: nat)
  {
    && item.Both? && item.fst.Proxy? && item.snd.Vector?
    && item.fst.proxy.start == start && item.fst.proxy.len == len
    && len <= |item.snd.vector|
    && start + len <= |data|
    && forall t :: 0 <= t < len ==> item.snd.vector[t] == data[start + t]
  }

  /** The source of the second usage example: a mutable destination paired with read-only data. */
  function DstDataPair(dst: seq<int>, data: seq<int>, lanes: nat, elemSize: nat): (src: Source<int>)
    requires lanes > 0 && |dst| == |data| && |dst| * elemSize <= ISIZE_MAX
    ensures WellFormed(src)
    ensures src == Pair(Slice(Exclusive, dst, lanes, elemSize), Slice(Shared, data, lanes, elemSize))
  {
    var src := Pair(Slice(Exclusive, dst, lanes, elemSize), Slice(Shared, data, lanes, elemSize));
    assert WellFormed(src.fst) && WellFormed(src.snd);
    src
  }

  /** One padding vector for each side of the pair. */
  function PairPadding(src: Source<int>, padD: seq<int>, padS: seq<int>): (pad: Padding<int>)
    requires src.Pair? && src.fst.Slice? && src.snd.Slice?
    requires |padD| == src.fst.lanes && |padS| == src.snd.lanes
    ensures PadFits(src, pad)
  {
    var pad := PadPair(PadVector(padD), PadVector(padS));
    assert PadFits(src.fst, pad.fst) && PadFits(src.snd, pad.snd);
    pad
  }

  /**
   * Dropping one (proxy, block) item after the loop body ran on it moves
   * the incremented prefix of the destination from `w` to `w + n` and
   * leaves the data alone.
   */
  lemma ReleaseAssigned(dst: seq<int>, data: seq<int>, lanes: nat, elemSize: nat, item: Item<int>, w: nat, n: nat)
    requires |dst| == |data| && PairItem(item, data, w, n)
    ensures var before := Pair(Slice(Exclusive, Incremented(dst, data, w), lanes, elemSize), Slice(Shared, data, lanes, elemSize));
      && ItemFits(Pair(Slice(Exclusive, dst, lanes, elemSize), Slice(Shared, data, lanes, elemSize)), AssignIncremented(item))
      && ItemFits(before, AssignIncremented(item))
      && ReleaseItem(before, AssignIncremented(item))
         == Pair(Slice(Exclusive, Incremented(dst, data, w + n), lanes, elemSize), Slice(Shared, data, lanes, elemSize))
  {
    var before := Pair(Slice(Exclusive, Incremented(dst, data, w), lanes, elemSize), Slice(Shared, data, lanes, elemSize));
    var s := item.snd.vector;
    var updated := AssignIncremented(item);
    var p := MutProxy(AddOne(s), w, n);
    assert updated == Both(Proxy(p), Vector(s));
    assert ItemFits(before.fst, updated.fst) && ItemFits(before.snd, updated.snd);
    assert ReleaseItem(before.fst, updated.fst) == Slice(Exclusive, Release(Incremented(dst, data, w), p), lanes, elemSize);
    assert ReleaseItem(before.snd, updated.snd) == before.snd;
    IncrementWindow(dst, data, w, n, s);
  }

  /** After the first `k` full blocks, the destination holds `data + 1` on `[0, k * lanes)` and its old values beyond. */
  lemma {:induction false} BlocksIncremented(dst: seq<int>, data: seq<int>, lanes: nat, elemSize: nat, items: seq<Item<int>>, k: nat)
    requires lanes > 0 && |dst| == |data| && k <= |items| && k * lanes <= |dst|
    requires forall i :: 0 <= i < k ==> PairItem(items[i], data, i * lanes, lanes)
    ensures forall i :: 0 <= i < k ==>
              ItemFits(Pair(Slice(Exclusive, dst, lanes, elemSize), Slice(Shared, data, lanes, elemSize)), AssignIncremented(items[..k][i]))
    ensures ForEachAssign(Pair(Slice(Exclusive, dst, lanes, elemSize), Slice(Shared, data, lanes, elemSize)), items[..k])
            == Pair(Slice(Exclusive, Incremented(dst, data, k * lanes), lanes, elemSize), Slice(Shared, data, lanes, elemSize))
    decreases k
  {
    var src := Pair(Slice(Exclusive, dst, lanes, elemSize), Slice(Shared, data, lanes, elemSize));
    if k == 0 {
      assert Incremented(dst, data, 0) == dst;
    } else {
      MulMono(k - 1, k, lanes);
      assert (k - 1) * lanes + lanes == k * lanes;
      BlocksIncremented(dst, data, lanes, elemSize, items, k - 1);
      assert items[..k][..k - 1] == items[..k - 1];
      ReleaseAssigned(dst, data, lanes, elemSize, items[k - 1], (k - 1) * lanes, lanes);
      forall i | 0 <= i < k
        ensures ItemFits(src, AssignIncremented(items[..k][i]))
      {
        if i < k - 1 {
          assert items[..k][i] == items[..k - 1][i];
        }
      }
    }
  }

  /**
   * The shape of what walking the pair yields: one (proxy, block) item per
   * full block over `[i * lanes, i * lanes + lanes)`, then, when there is a
   * remainder, one over the tail `[main, len)`.
   */
  ghost predicate PairItems(items: seq<Item<int>>, data: seq<int>, lanes: nat)
    requires lanes > 0
  {
    var c, rest := FullBlockCount(|data|, lanes), Rest(|data|, lanes);
    && |items| == c + (if rest == 0 then 0 else 1)
    && (forall i :: 0 <= i < c ==> PairItem(items[i], data, i * lanes, lanes))
    && (rest != 0 ==> PairItem(items[c], data, Main(|data|, lanes), rest))
  }

  /** Running the loop body over items of that shape turns the destination into `data + 1`. */
  lemma ForEachAssignIncrements(dst: seq<int>, data: seq<int>, lanes: nat, elemSize: nat, items: seq<Item<int>>)
    requires lanes > 0 && |dst| == |data| && PairItems(items, data, lanes)
    ensures var src := Pair(Slice(Exclusive, dst, lanes, elemSize), Slice(Shared, data, lanes, elemSize));
      && (forall k :: 0 <= k < |items| ==> ItemFits(src, AssignIncremented(items[k])))
      && ForEachAssign(src, items)
         == Pair(Slice(Exclusive, AddOne(data), lanes, elemSize), Slice(Shared, data, lanes, elemSize))
  {
    var src := Pair(Slice(Exclusive, dst, lanes, elemSize), Slice(Shared, data, lanes, elemSize));
    Decomposition(|dst|, lanes);
    var c, rest, main := FullBlockCount(|dst|, lanes), Rest(|dst|, lanes), Main(|dst|, lanes);
    assert c * lanes == main;
    BlocksIncremented(dst, data, lanes, elemSize, items, c);
    if rest == 0 {
      assert items[..c] == items;
      assert Incremented(dst, data, main) == AddOne(data);
    } else {
      assert items[..|items| - 1] == items[..c];
      ReleaseAssigned(dst, data, lanes, elemSize, items[c], main, rest);
      assert Incremented(dst, data, main + rest) == AddOne(data);
      FitsPrefixAndLast(src, items, c);
    }
  }

  /** The loop body's items fit when those of a prefix and the last one do. */
  lemma FitsPrefixAndLast(src: Source<int>, items: seq<Item<int>>, n: nat)
    requires |items| == n + 1
    requires forall i :: 0 <= i < n ==> ItemFits(src, AssignIncremented(items[..n][i]))
    requires ItemFits(src, AssignIncremented(items[n]))
    ensures forall k :: 0 <= k < |items| ==> ItemFits(src, AssignIncremented(items[k]))
  {
    forall k | 0 <= k < n
      ensures ItemFits(src, AssignIncremented(items[k]))
    {
      assert items[k] == items[..n][k];
    }
  }

  /** Walking the padded (destination, data) pair succeeds and yields items of that shape. */
  lemma PairYieldsBlocksThenTail(dst: seq<int>, data: seq<int>, lanes: nat, elemSize: nat, padD: seq<int>, padS: seq<int>)
    requires lanes > 0 && |dst| == |data| && |padD| == lanes && |padS| == lanes
    requires |dst| * elemSize <= ISIZE_MAX
    ensures var src := DstDataPair(dst, data, lanes, elemSize);
      var r := VectorizePad(src, PairPadding(src, padD, padS));
      r.Ok? && PairItems(Drain(r.value), data, lanes)
  {
    var src := DstDataPair(dst, data, lanes, elemSize);
    var pad := PairPadding(src, padD, padS);
    assert Balanced(src.fst) && Balanced(src.snd) && BlockCount(src.fst) == BlockCount(src.snd);
    assert RestsAgree(src.fst) && RestsAgree(src.snd) && HasRest(src.fst) == HasRest(src.snd);
    assert Balanced(src) && RestsAgree(src);
    var it := VectorizePad(src, pad).value;
    var items := Pending(it);
    Decomposition(|dst|, lanes);
    var c, rest, main := BlockCount(src), Rest(|dst|, lanes), Main(|dst|, lanes);
    var v := it.vectorizer;
    assert v == PairVectorizer(WriteVectorizer(dst, lanes), ReadVectorizer(data, lanes));
    forall i | 0 <= i < c
      ensures PairItem(items[i], data, i * lanes, lanes)
    {
      assert InRange(v, i) && items[i] == Get(v, i);
    }
    if rest != 0 {
      var last := it.partial.value;
      assert IsPaddedTail(src, pad, last);
      assert items[c] == last;
    }
    assert Drain(it) == items;
  }

  /**
   * The second usage example, for any length and lane count: walking a
   * (mutable destination, read-only data) pair of equal length with
   * padding and assigning `ones + s` to every proxy leaves the destination
   * equal to `data + 1` element by element, at its length, and
   * the data untouched.
   */
  lemma IncrementThroughPair(dst: seq<int>, data: seq<int>, lanes: nat, elemSize: nat, padD: seq<int>, padS: seq<int>)
    requires lanes > 0 && |dst| == |data| && |padD| == lanes && |padS| == lanes
    requires |dst| * elemSize <= ISIZE_MAX
    ensures var src := DstDataPair(dst, data, lanes, elemSize);
      var r := VectorizePad(src, PairPadding(src, padD, padS));
      && r.Ok?
      && (forall k :: 0 <= k < |Drain(r.value)| ==> ItemFits(src, AssignIncremented(Drain(r.value)[k])))
      && ForEachAssign(src, Drain(r.value))
         == Pair(Slice(Exclusive, AddOne(data), lanes, elemSize), Slice(Shared, data, lanes, elemSize))
  {
    PairYieldsBlocksThenTail(dst, data, lanes, elemSize, padD, padS);
    var src := DstDataPair(dst, data, lanes, elemSize);
    var items := Drain(VectorizePad(src, PairPadding(src, padD, padS)).value);
    ForEachAssignIncrements(dst, data, lanes, elemSize, items);
  }

  /**
   * The second usage example itself: 33 elements, four lanes, zero
   * padding; whatever the destination held, it ends up holding `1..=33`.
   */
  lemma ThirtyThreeElementsIncremented(dst: seq<int>, zeros: seq<int>)
    requires |dst| == 33 && zeros == seq(4, _ => 0)
    ensures var src := DstDataPair(dst, seq(33, i => i), 4, 4);
      var r := VectorizePad(src, PairPadding(src, zeros, zeros));
      && r.Ok?
      && (forall k :: 0 <= k < |Drain(r.value)| ==> ItemFits(src, AssignIncremented(Drain(r.value)[k])))
      && ForEachAssign(src, Drain(r.value))
         == Pair(Slice(Exclusive, seq(33, i => i + 1), 4, 4), Slice(Shared, seq(33, i => i), 4, 4))
  {
    var data := seq(33, i => i);
    IncrementThroughPair(dst, data, 4, 4, zeros, zeros);
    assert AddOne(data) == seq(33, i => i + 1);
  }
}
