/**
 * Block decomposition of a source and per-index block access.
 *
 * A source is a read-only slice, a mutable slice, or a pair of sources
 * walked in lockstep. Creating a vectorizer from a source yields a
 * stateless accessor for the full blocks, the number of full blocks, and
 * (when the length is not block-aligned and a padding vector was given)
 * one padded tail block. Misuse that the Rust implementation aborts on is an `Err`.
 */
module Vectorizers {
  import opened Wrappers
  import opened Blocks
  import opened Proxies

  /** Largest byte length a slice may span: `isize::MAX` on a 64-bit target. */
  const ISIZE_MAX: nat := 0x7fff_ffff_ffff_ffff

  /** Shared (`&[B]`) or exclusive (`&mut [B]`) borrow of a slice. */
  datatype Access = Shared | Exclusive

  /**
   * A vectorizable source. `lanes` is the lane count of the vector type
   * the slice is viewed through and `elemSize` the byte size of one element.
   */
  datatype Source<T> =
    | Slice(access: Access, buf: seq<T>, lanes: nat, elemSize: nat)
    | Pair(fst: Source<T>, snd: Source<T>)

  /** Padding values: one vector per slice, paired like the source. */
  datatype Padding<T> =
    | PadVector(vector: seq<T>)
    | PadPair(fst: Padding<T>, snd: Padding<T>)

  /**
   * What the engine yields: a block value (read path), a write-back proxy
   * (write path), or a pair of those for a pair source.
   */
  datatype Item<T> =
    | Vector(vector: seq<T>)
    | Proxy(proxy: MutProxy<T>)
    | Both(fst: Item<T>, snd: Item<T>)

  /**
   * The stateless block accessor. The Rust implementation keeps only the start
   * address of the slice; here it keeps the slice contents it points to.
   */
  datatype Vectorizer<T> =
    | ReadVectorizer(buf: seq<T>, lanes: nat)
    | WriteVectorizer(buf: seq<T>, lanes: nat)
    | PairVectorizer(fst: Vectorizer<T>, snd: Vectorizer<T>)

  /** The misuse conditions the Rust implementation panics on. */
  datatype Error =
    | NotDivisible(lanes: nat, len: nat)
    | DifferentLengths(fst: nat, snd: nat)
    | PaddingsMismatch

  /** What `create` returns: the accessor, the number of full blocks, the optional tail. */
  datatype Created<T> = Created(vectorizer: Vectorizer<T>, count: nat, partial: Option<Item<T>>)

  /**
   * Every slice is viewed through a vector type with at least one lane,
   * and no slice spans more than `ISIZE_MAX` bytes.
   */
  predicate WellFormed<T>(src: Source<T>)
  {
    match src
    case Slice(_, buf, lanes, elemSize) => lanes > 0 && |buf| * elemSize <= ISIZE_MAX
    case Pair(a, b) => WellFormed(a) && WellFormed(b)
  }

  /** The padding has the source's pair structure and one full vector per slice. */
  predicate PadFits<T>(src: Source<T>, pad: Padding<T>)
  {
    match src
    case Slice(_, _, lanes, _) => pad.PadVector? && |pad.vector| == lanes
    case Pair(a, b) => pad.PadPair? && PadFits(a, pad.fst) && PadFits(b, pad.snd)
  }

  /** An optional padding fits when it is absent or fits. */
  predicate OptPadFits<T>(src: Source<T>, pad: Option<Padding<T>>)
  {
    pad.Some? ==> PadFits(src, pad.value)
  }

  // Reference definitions of when and how `Create` succeeds.

  /** Every slice length is a multiple of its lane count. */
  predicate Aligned<T>(src: Source<T>)
    requires WellFormed(src)
  {
    match src
    case Slice(_, buf, lanes, _) => |buf| % lanes == 0
    case Pair(a, b) => Aligned(a) && Aligned(b)
  }

  /** The number of full blocks, read off the first slice of the source. */
  function BlockCount<T>(src: Source<T>): nat
    requires WellFormed(src)
  {
    match src
    case Slice(_, buf, lanes, _) => |buf| / lanes
    case Pair(a, _) => BlockCount(a)
  }

  /** Both sides of every pair have the same number of full blocks. */
  predicate Balanced<T>(src: Source<T>)
    requires WellFormed(src)
  {
    match src
    case Slice(_, _, _, _) => true
    case Pair(a, b) => Balanced(a) && Balanced(b) && BlockCount(a) == BlockCount(b)
  }

  /** The (first) slice of the source leaves a remainder. */
  predicate HasRest<T>(src: Source<T>)
    requires WellFormed(src)
  {
    match src
    case Slice(_, buf, lanes, _) => |buf| % lanes != 0
    case Pair(a, _) => HasRest(a)
  }

  /** Both sides of every pair agree on whether they leave a remainder. */
  predicate RestsAgree<T>(src: Source<T>)
    requires WellFormed(src)
  {
    match src
    case Slice(_, _, _, _) => true
    case Pair(a, b) => RestsAgree(a) && RestsAgree(b) && HasRest(a) == HasRest(b)
  }

  /** The vectorizer points at exactly the source's slices, with matching access. */
  ghost predicate Views<T>(v: Vectorizer<T>, src: Source<T>)
  {
    match src
    case Slice(Shared, buf, lanes, _) => v == ReadVectorizer(buf, lanes)
    case Slice(Exclusive, buf, lanes, _) => v == WriteVectorizer(buf, lanes)
    case Pair(a, b) => v.PairVectorizer? && Views(v.fst, a) && Views(v.snd, b)
  }

  /**
   * `item` is the padded tail of `src`: in every slice, its first `rest`
   * lanes are the slice's tail, its other lanes keep the padding, and on
   * the write path its restore window is exactly the tail `[main, len)`.
   */
  ghost predicate IsPaddedTail<T>(src: Source<T>, pad: Padding<T>, item: Item<T>)
    requires WellFormed(src) && PadFits(src, pad)
  {
    match src
    case Slice(access, buf, lanes, _) =>
      var rest, main := Rest(|buf|, lanes), Main(|buf|, lanes);
      var block := if access == Shared then
          (if item.Vector? then item.vector else [])
        else
          (if item.Proxy? then item.proxy.data else []);
      && (if access == Shared then item.Vector?
          else item.Proxy? && item.proxy.start == main && item.proxy.len == rest)
      && |block| == lanes
      && block[..rest] == buf[main..]
      && block[rest..] == pad.vector[rest..]
    case Pair(a, b) =>
      item.Both? && IsPaddedTail(a, pad.fst, item.fst) && IsPaddedTail(b, pad.snd, item.snd)
  }

  /** Block `i` can be fetched: it lies inside every slice the vectorizer views. */
  predicate InRange<T>(v: Vectorizer<T>, i: nat)
  {
    match v
    case ReadVectorizer(buf, lanes) => i * lanes + lanes <= |buf|
    case WriteVectorizer(buf, lanes) => i * lanes + lanes <= |buf|
    case PairVectorizer(a, b) => InRange(a, i) && InRange(b, i)
  }

  /** An item can be released into the source: proxies only for mutable slices, windows inside them. */
  predicate ItemFits<T>(src: Source<T>, item: Item<T>)
  {
    match src
    case Slice(Shared, _, _, _) => item.Vector?
    case Slice(Exclusive, buf, _, _) => item.Proxy? && Fits(item.proxy, buf)
    case Pair(a, b) => item.Both? && ItemFits(a, item.fst) && ItemFits(b, item.snd)
  }

  /** Block `i` of a slice exists exactly when `i` is below the block count. */
  lemma InBlocks(i: nat, len: nat, lanes: nat)
    requires lanes > 0
    ensures i * lanes + lanes <= len <==> i < len / lanes
  {
    Decomposition(len, lanes);
    var c := len / lanes;
    if i < c {
      BlockInside(i, c, lanes);
    } else {
      MulMono(c, i, lanes);
    }
  }

  /** Every block below `count` can be fetched from a slice of `len` elements, and no other. */
  lemma RangeIsCount<T>(v: Vectorizer<T>, len: nat, lanes: nat)
    requires lanes > 0
    requires (v.ReadVectorizer? || v.WriteVectorizer?) && v.lanes == lanes && |v.buf| == len
    ensures forall i: nat :: InRange(v, i) <==> i < FullBlockCount(len, lanes)
  {
    Decomposition(len, lanes);
    forall i: nat
      ensures InRange(v, i) <==> i < FullBlockCount(len, lanes)
    {
      InBlocks(i, len, lanes);
    }
  }

  /**
   * `create` for a read-only slice: `len / lanes` full blocks; a remainder
   * needs a padding vector, whose first `rest` lanes then take the tail
   * while the rest keep the padding; a remainder without padding is misuse.
   */
  function CreateShared<T>(buf: seq<T>, lanes: nat, elemSize: nat, pad: Option<seq<T>>): (r: Result<Created<T>, Error>)
    requires lanes > 0 && |buf| * elemSize <= ISIZE_MAX
    requires pad.Some? ==> |pad.value| == lanes
    ensures r.Ok? <==> |buf| % lanes == 0 || pad.Some?
    ensures r.Err? ==> r.error == NotDivisible(lanes, |buf|)
    ensures r.Ok? ==> r.value.vectorizer == ReadVectorizer(buf, lanes) && r.value.count == |buf| / lanes
    ensures r.Ok? ==> forall i: nat :: InRange(r.value.vectorizer, i) <==> i < r.value.count
    ensures r.Ok? ==> (r.value.partial.Some? <==> |buf| % lanes != 0)
    ensures r.Ok? && r.value.partial.Some? ==>
              var rest, tail := |buf| % lanes, r.value.partial.value;
              && tail.Vector? && |tail.vector| == lanes
              && tail.vector[..rest] == buf[|buf| - rest..]
              && tail.vector[rest..] == pad.value[rest..]
  {
    var rest, main := Rest(|buf|, lanes), Main(|buf|, lanes);
    var v := ReadVectorizer(buf, lanes);
    RangeIsCount(v, |buf|, lanes);
    Decomposition(|buf|, lanes);
    assert main == |buf| - rest;
    if rest == 0 then
      Ok(Created(v, main / lanes, None))
    else if pad.Some? then
      Ok(Created(v, main / lanes, Some(Vector(PadTail(buf, lanes, pad.value)))))
    else
      Err(NotDivisible(lanes, |buf|))
  }

  /**
   * `create` for a mutable slice: as for a read-only slice, but the tail
   * block is a proxy whose restore window is exactly the `rest`-long tail
   * `[main, len)`, so padding lanes are never written back.
   */
  function CreateExclusive<T>(buf: seq<T>, lanes: nat, elemSize: nat, pad: Option<seq<T>>): (r: Result<Created<T>, Error>)
    requires lanes > 0 && |buf| * elemSize <= ISIZE_MAX
    requires pad.Some? ==> |pad.value| == lanes
    ensures r.Ok? <==> |buf| % lanes == 0 || pad.Some?
    ensures r.Err? ==> r.error == NotDivisible(lanes, |buf|)
    ensures r.Ok? ==> r.value.vectorizer == WriteVectorizer(buf, lanes) && r.value.count == |buf| / lanes
    ensures r.Ok? ==> forall i: nat :: InRange(r.value.vectorizer, i) <==> i < r.value.count
    ensures r.Ok? ==> (r.value.partial.Some? <==> |buf| % lanes != 0)
    ensures r.Ok? && r.value.partial.Some? ==>
              var rest, tail := |buf| % lanes, r.value.partial.value;
              && tail.Proxy? && |tail.proxy.data| == lanes
              && tail.proxy.start == |buf| - rest && tail.proxy.len == rest
              && tail.proxy.data[..rest] == buf[|buf| - rest..]
              && tail.proxy.data[rest..] == pad.value[rest..]
  {
    var rest, main := Rest(|buf|, lanes), Main(|buf|, lanes);
    var v := WriteVectorizer(buf, lanes);
    RangeIsCount(v, |buf|, lanes);
    Decomposition(|buf|, lanes);
    assert main == |buf| - rest;
    if rest == 0 then
      Ok(Created(v, main / lanes, None))
    else if pad.Some? then
      Ok(Created(v, main / lanes, Some(Proxy(MutProxy(PadTail(buf, lanes, pad.value), main, rest)))))
    else
      Err(NotDivisible(lanes, |buf|))
  }

  /**
   * `create` for any source. Slices go to the two cases above. A pair
   * splits one padding into its halves (or gives neither side one),
   * creates the first side and then the second, and fails unless both
   * report the same block count and either both or neither yield a tail.
   */
  function Create<T>(src: Source<T>, pad: Option<Padding<T>>): (r: Result<Created<T>, Error>)
    requires WellFormed(src) && OptPadFits(src, pad)
    ensures r.Ok? <==> Balanced(src) && (if pad.Some? then RestsAgree(src) else Aligned(src))
    ensures r.Ok? ==> r.value.count == BlockCount(src)
    ensures r.Ok? ==> Views(r.value.vectorizer, src)
    ensures r.Ok? ==> forall i: nat :: InRange(r.value.vectorizer, i) <==> i < r.value.count
    ensures r.Ok? ==> (r.value.partial.Some? <==> HasRest(src))
    ensures r.Ok? && r.value.partial.Some? ==>
              pad.Some? && IsPaddedTail(src, pad.value, r.value.partial.value)
                && ItemFits(src, r.value.partial.value)
    decreases src
  {
    match src
    case Slice(access, buf, lanes, elemSize) =>
      Decomposition(|buf|, lanes);
      var vector := if pad.Some? then Some(pad.value.vector) else None;
      if access == Shared then CreateShared(buf, lanes, elemSize, vector)
      else CreateExclusive(buf, lanes, elemSize, vector)
    case Pair(a, b) =>
      var pa := if pad.Some? then Some(pad.value.fst) else None;
      var pb := if pad.Some? then Some(pad.value.snd) else None;
      match Create(a, pa)
      case Err(e) => Err(e)
      case Ok(ca) =>
        match Create(b, pb)
        case Err(e) => Err(e)
        case Ok(cb) =>
          if ca.count != cb.count then
            Err(DifferentLengths(ca.count, cb.count))
          else
            match (ca.partial, cb.partial)
            case (Some(x), Some(y)) => Ok(Created(PairVectorizer(ca.vectorizer, cb.vectorizer), ca.count, Some(Both(x, y))))
            case (None, None) => Ok(Created(PairVectorizer(ca.vectorizer, cb.vectorizer), ca.count, None))
            case _ => Err(PaddingsMismatch)
  }

  /**
   * Which misuse a failing `Create` reports: an unaligned slice without
   * padding reports the lane count and the length; a pair reports the
   * first side's failure, then the second side's, then different block
   * counts, and a tail block on one side only last.
   */
  lemma CreateErrors<T>(src: Source<T>, pad: Option<Padding<T>>)
    requires WellFormed(src) && OptPadFits(src, pad)
    ensures src.Slice? && Create(src, pad).Err? ==>
              pad.None? && Create(src, pad).error == NotDivisible(src.lanes, |src.buf|)
    ensures src.Pair? ==>
              var pa := if pad.Some? then Some(pad.value.fst) else None;
              var pb := if pad.Some? then Some(pad.value.snd) else None;
              && (Create(src.fst, pa).Err? ==> Create(src, pad) == Create(src.fst, pa))
              && (Create(src.fst, pa).Ok? && Create(src.snd, pb).Err? ==> Create(src, pad) == Create(src.snd, pb))
              && (Create(src.fst, pa).Ok? && Create(src.snd, pb).Ok? ==>
                && (BlockCount(src.fst) != BlockCount(src.snd) ==>
                      Create(src, pad) == Err(DifferentLengths(BlockCount(src.fst), BlockCount(src.snd))))
                && (BlockCount(src.fst) == BlockCount(src.snd) && HasRest(src.fst) != HasRest(src.snd) ==>
                      Create(src, pad) == Err(PaddingsMismatch)))
  {
  }

  /** Without padding, an aligned source never produces a tail block. */
  lemma AlignedHasNoRest<T>(src: Source<T>)
    requires WellFormed(src) && Aligned(src)
    ensures !HasRest(src)
  {
  }

  /**
   * `get` on a read-only slice: block `i` is exactly the `lanes` elements
   * starting at offset `i * lanes`.
   */
  function GetRead<T>(buf: seq<T>, lanes: nat, i: nat): (r: Item<T>)
    requires i * lanes + lanes <= |buf|
    ensures r.Vector? && |r.vector| == lanes
    ensures forall k :: 0 <= k < lanes ==> r.vector[k] == buf[i * lanes + k]
  {
    Vector(Block(buf, lanes, i))
  }

  /**
   * `get` on a mutable slice: block `i` together with a restore window
   * over the same `lanes` elements, which lies inside the slice.
   */
  function GetWrite<T>(buf: seq<T>, lanes: nat, i: nat): (r: Item<T>)
    requires i * lanes + lanes <= |buf|
    ensures r.Proxy? && r.proxy.start == i * lanes && r.proxy.len == lanes
    ensures Fits(r.proxy, buf) && |r.proxy.data| == lanes
    ensures forall k :: 0 <= k < lanes ==> r.proxy.data[k] == buf[i * lanes + k]
  {
    Proxy(MutProxy(Block(buf, lanes, i), i * lanes, lanes))
  }

  /** `get` on any vectorizer; on a pair, the pair of both sides' block `i`. */
  function Get<T>(v: Vectorizer<T>, i: nat): (r: Item<T>)
    requires InRange(v, i)
    ensures v.ReadVectorizer? ==> r == GetRead(v.buf, v.lanes, i)
    ensures v.WriteVectorizer? ==> r == GetWrite(v.buf, v.lanes, i)
    ensures v.PairVectorizer? ==> r.Both? && r.fst == Get(v.fst, i) && r.snd == Get(v.snd, i)
  {
    match v
    case ReadVectorizer(buf, lanes) => GetRead(buf, lanes, i)
    case WriteVectorizer(buf, lanes) => GetWrite(buf, lanes, i)
    case PairVectorizer(a, b) => Both(Get(a, i), Get(b, i))
  }

  /** Every fetched block can be released into the source it was fetched from. */
  lemma {:induction false} GetFits<T>(src: Source<T>, v: Vectorizer<T>, i: nat)
    requires Views(v, src) && InRange(v, i)
    ensures ItemFits(src, Get(v, i))
  {
    if src.Pair? {
      GetFits(src.fst, v.fst, i);
      GetFits(src.snd, v.snd, i);
    }
  }

  /** Both sources have the same structure, access, lane counts and lengths. */
  predicate SameShape<T>(a: Source<T>, b: Source<T>)
  {
    match a
    case Slice(access, buf, lanes, elemSize) =>
      b.Slice? && b.access == access && |b.buf| == |buf| && b.lanes == lanes && b.elemSize == elemSize
    case Pair(x, y) => b.Pair? && SameShape(x, b.fst) && SameShape(y, b.snd)
  }

  /** Every read-only slice of `b` holds what it holds in `a`. */
  ghost predicate SharedUnchanged<T>(a: Source<T>, b: Source<T>)
    requires SameShape(a, b)
  {
    match a
    case Slice(access, buf, _, _) => access == Shared ==> b.buf == buf
    case Pair(x, y) => SharedUnchanged(x, b.fst) && SharedUnchanged(y, b.snd)
  }

  /**
   * Dropping a yielded item: each proxy in it writes back into its own
   * mutable slice; block values of read-only slices have no effect.
   */
  function ReleaseItem<T>(src: Source<T>, item: Item<T>): (r: Source<T>)
    requires ItemFits(src, item)
    ensures SameShape(src, r) && SharedUnchanged(src, r)
    ensures WellFormed(src) ==> WellFormed(r)
    ensures src.Slice? && src.access == Exclusive ==> r == src.(buf := Release(src.buf, item.proxy))
    ensures src.Slice? && src.access == Shared ==> r == src
    ensures src.Pair? ==> r == Pair(ReleaseItem(src.fst, item.fst), ReleaseItem(src.snd, item.snd))
  {
    match src
    case Slice(Shared, _, _, _) => src
    case Slice(Exclusive, buf, _, _) => src.(buf := Release(buf, item.proxy))
    case Pair(a, b) => Pair(ReleaseItem(a, item.fst), ReleaseItem(b, item.snd))
  }

  /** Whether an item fits depends only on the source's shape. */
  lemma {:induction false} ItemFitsShape<T>(a: Source<T>, b: Source<T>, item: Item<T>)
    requires SameShape(a, b) && ItemFits(a, item)
    ensures ItemFits(b, item)
  {
    if a.Pair? {
      ItemFitsShape(a.fst, b.fst, item.fst);
      ItemFitsShape(a.snd, b.snd, item.snd);
    }
  }

  /** Having the same shape is transitive. */
  lemma {:induction false} SameShapeTransitive<T>(a: Source<T>, b: Source<T>, c: Source<T>)
    requires SameShape(a, b) && SameShape(b, c)
    ensures SameShape(a, c)
  {
    if a.Pair? {
      SameShapeTransitive(a.fst, b.fst, c.fst);
      SameShapeTransitive(a.snd, b.snd, c.snd);
    }
  }

  /** Distinct blocks occupy disjoint windows. */
  lemma DistinctBlocksDisjoint(i: nat, j: nat, lanes: nat)
    requires i != j
    ensures i * lanes + lanes <= j * lanes || j * lanes + lanes <= i * lanes
  {
    if i < j {
      MulMono(i + 1, j, lanes);
    } else {
      MulMono(j + 1, i, lanes);
    }
  }

  /**
   * Releasing a proxy over a window disjoint from block `i` leaves block `i`
   * as it was, so fetching block `i` after other blocks (or the tail) were
   * written back reads what it would have read before.
   */
  lemma ReleaseKeepsOtherBlock<T>(buf: seq<T>, lanes: nat, i: nat, p: MutProxy<T>)
    requires i * lanes + lanes <= |buf| && Fits(p, buf)
    requires p.start + p.len <= i * lanes || i * lanes + lanes <= p.start
    ensures Get(WriteVectorizer(Release(buf, p), lanes), i) == Get(WriteVectorizer(buf, lanes), i)
  {
    var after := Release(buf, p);
    assert Block(after, lanes, i) == Block(buf, lanes, i) by {
      forall j | i * lanes <= j < i * lanes + lanes
        ensures after[j] == buf[j]
      {
        assert !InWindow(p, j);
      }
    }
  }

  /**
   * Dropping the tail block `create` produced, without writing to it,
   * leaves the source as it was: its restore window `[main, len)` still
   * holds what the slice holds, and the padding lanes are never written.
   * This is what happens when `nth` skips past the end, or the iterator
   * is dropped or consumed by `count`, while still holding the tail.
   */
  lemma {:induction false} UnusedTailReleasesNothing<T>(src: Source<T>, pad: Padding<T>, tail: Item<T>)
    requires WellFormed(src) && PadFits(src, pad)
    requires IsPaddedTail(src, pad, tail) && ItemFits(src, tail)
    ensures ReleaseItem(src, tail) == src
  {
    match src
    case Slice(access, buf, lanes, _) =>
      if access == Exclusive {
        Decomposition(|buf|, lanes);
        var p := tail.proxy;
        assert p.data[..p.len] == buf[p.start .. p.start + p.len];
        UntouchedReleaseIsIdentity(buf, p);
      }
    case Pair(a, b) =>
      UnusedTailReleasesNothing(a, pad.fst, tail.fst);
      UnusedTailReleasesNothing(b, pad.snd, tail.snd);
  }

  /** The tail window `[main, len)` is disjoint from every full block. */
  lemma TailAfterBlocks(len: nat, lanes: nat, i: nat)
    requires lanes > 0 && i < FullBlockCount(len, lanes)
    ensures i * lanes + lanes <= Main(len, lanes)
  {
    Decomposition(len, lanes);
    BlockInside(i, FullBlockCount(len, lanes), lanes);
  }
}
