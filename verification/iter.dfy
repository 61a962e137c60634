/**
 * The vectorized iterator: a cursor over the full blocks `[left, right)`
 * plus an optional tail block. Forward steps yield blocks left to right
 * and the tail last; backward steps yield the tail first and then blocks
 * right to left. Every step is a pure transition returning the new cursor.
 */
module Iter {
  import opened Wrappers
  import opened Vectorizers

  /**
   * Cursor state. `fetched` records every block index passed to `Get` so
   * far; the Rust iterator keeps no such record, it is here only to state the
   * accessor's usage contract (each index in range, fetched at most once).
   */
  datatype VectorizedIter<T> = VectorizedIter(
    vectorizer: Vectorizer<T>,
    left: nat,
    right: nat,
    partial: Option<Item<T>>,
    fetched: set<nat>)

  /** One step: the cursor afterwards and what the step yielded. */
  datatype Step<T> = Step(iter: VectorizedIter<T>, item: Option<Item<T>>)

  /** Direction of one step of a two-ended consumption. */
  datatype Direction = Forward | Backward

  /**
   * The cursor invariant: `left <= right`, every pending block can be
   * fetched and has not been fetched yet, and everything fetched was in range.
   */
  predicate Valid<T>(it: VectorizedIter<T>)
  {
    && it.left <= it.right
    && (forall i: nat :: it.left <= i < it.right ==> InRange(it.vectorizer, i) && i !in it.fetched)
    && (forall i :: i in it.fetched ==> InRange(it.vectorizer, i))
  }

  /** Size of the partial slot: 1 when it holds a tail block, 0 otherwise. */
  function PartialSize<T>(p: Option<Item<T>>): nat
  {
    if p.Some? then 1 else 0
  }

  /** Blocks `[left, right)` of a vectorizer, fetched in order. */
  function BlocksBetween<T>(v: Vectorizer<T>, left: nat, right: nat): (s: seq<Item<T>>)
    requires forall i: nat :: left <= i < right ==> InRange(v, i)
    ensures |s| == if left <= right then right - left else 0
    ensures forall k :: 0 <= k < |s| ==> s[k] == Get(v, left + k)
  {
    if left <= right then seq(right - left, k requires 0 <= k < right - left => Get(v, left + k)) else []
  }

  /** Moving the lower bound up drops blocks from the front. */
  lemma BlocksBetweenDropFront<T>(v: Vectorizer<T>, left: nat, right: nat, n: nat)
    requires forall i: nat :: left <= i < right ==> InRange(v, i)
    requires left + n <= right
    ensures BlocksBetween(v, left + n, right) == BlocksBetween(v, left, right)[n..]
  {
  }

  /** Moving the upper bound down drops blocks from the back. */
  lemma BlocksBetweenDropBack<T>(v: Vectorizer<T>, left: nat, right: nat)
    requires forall i: nat :: left <= i < right ==> InRange(v, i)
    requires left < right
    ensures BlocksBetween(v, left, right - 1) == BlocksBetween(v, left, right)[..right - left - 1]
  {
  }

  /** The items still to come, in forward order: the pending blocks, then the tail. */
  function Pending<T>(it: VectorizedIter<T>): (s: seq<Item<T>>)
    requires Valid(it)
    ensures |s| == it.right - it.left + PartialSize(it.partial)
  {
    BlocksBetween(it.vectorizer, it.left, it.right) + OptionToSeq(it.partial)
  }

  /**
   * Forward step (`next`): the next pending block, else the tail, else
   * nothing (fused). A block index is fetched only when one is pending;
   * it is in range and has not been fetched before.
   */
  function Next<T>(it: VectorizedIter<T>): (r: Step<T>)
    requires Valid(it)
    ensures Valid(r.iter) && r.iter.vectorizer == it.vectorizer
    ensures it.left < it.right ==>
              && it.left !in it.fetched && InRange(it.vectorizer, it.left)
              && r.iter.fetched == it.fetched + {it.left}
    ensures it.left >= it.right ==> r.iter.fetched == it.fetched
  {
    if it.left < it.right then
      var idx := it.left;
      Step(it.(left := it.left + 1, fetched := it.fetched + {idx}), Some(Get(it.vectorizer, idx)))
    else if it.partial.Some? then
      Step(it.(partial := None), it.partial)
    else
      Step(it, None)
  }

  /** A forward step yields the first pending item and leaves the rest pending. */
  lemma NextYieldsHead<T>(it: VectorizedIter<T>)
    requires Valid(it)
    ensures var s, r := Pending(it), Next(it);
      if |s| == 0 then r.item.None? && r.iter == it
      else r.item == Some(s[0]) && Pending(r.iter) == s[1..]
  {
    var blocks, tail := BlocksBetween(it.vectorizer, it.left, it.right), OptionToSeq(it.partial);
    var r := Next(it);
    if it.left < it.right {
      assert r.item == Some(blocks[0]);
      BlocksBetweenDropFront(it.vectorizer, it.left, it.right, 1);
      assert Pending(r.iter) == blocks[1..] + tail;
      assert (blocks + tail)[1..] == blocks[1..] + tail;
    } else if it.partial.Some? {
      assert Pending(it) == [it.partial.value];
      assert Pending(r.iter) == [];
    } else {
      assert Pending(it) == [];
    }
  }

  /**
   * Backward step (`next_back`): the tail first, else the last pending
   * block, else nothing. A block index is fetched only when no tail is
   * held and a block is pending; it is in range and has not been fetched before.
   */
  function NextBack<T>(it: VectorizedIter<T>): (r: Step<T>)
    requires Valid(it)
    ensures Valid(r.iter) && r.iter.vectorizer == it.vectorizer
    ensures it.partial.None? && it.left < it.right ==>
              && it.right - 1 !in it.fetched && InRange(it.vectorizer, it.right - 1)
              && r.iter.fetched == it.fetched + {it.right - 1}
    ensures it.partial.Some? || it.left >= it.right ==> r.iter.fetched == it.fetched
  {
    if it.partial.Some? then
      Step(it.(partial := None), it.partial)
    else if it.left < it.right then
      var idx := it.right - 1;
      Step(it.(right := idx, fetched := it.fetched + {idx}), Some(Get(it.vectorizer, idx)))
    else
      Step(it, None)
  }

  /** A backward step yields the last pending item and leaves the others pending. */
  lemma NextBackYieldsEnd<T>(it: VectorizedIter<T>)
    requires Valid(it)
    ensures var s, r := Pending(it), NextBack(it);
      if |s| == 0 then r.item.None? && r.iter == it
      else r.item == Some(s[|s| - 1]) && Pending(r.iter) == s[..|s| - 1]
  {
    var blocks := BlocksBetween(it.vectorizer, it.left, it.right);
    var r := NextBack(it);
    if it.partial.Some? {
      assert Pending(it) == blocks + [it.partial.value];
      assert Pending(r.iter) == blocks;
    } else if it.left < it.right {
      assert Pending(it) == blocks;
      assert r.item == Some(blocks[|blocks| - 1]);
      BlocksBetweenDropBack(it.vectorizer, it.left, it.right);
    } else {
      assert Pending(it) == [];
    }
  }

  /** `size_hint`: lower and upper bound, both exactly the number of items still to come. */
  function SizeHint<T>(it: VectorizedIter<T>): (r: (nat, Option<nat>))
    requires Valid(it)
    ensures r.0 == |Pending(it)| && r.1 == Some(r.0)
  {
    var len := it.right - it.left + PartialSize(it.partial);
    (len, Some(len))
  }

  /** `count`, answered from the indices without stepping. */
  function Count<T>(it: VectorizedIter<T>): (n: nat)
    requires Valid(it)
    ensures n == |Pending(it)|
  {
    SizeHint(it).0
  }

  /** `last`, answered by one backward step: the final item of the forward order. */
  function Last<T>(it: VectorizedIter<T>): (r: Option<Item<T>>)
    requires Valid(it)
    ensures var s := Pending(it); r == if |s| == 0 then None else Some(s[|s| - 1])
  {
    NextBackYieldsEnd(it);
    NextBack(it).item
  }

  /**
   * `nth`: skip `n` items and yield the next one. Skipped blocks are never
   * fetched. When `n` reaches past the pending blocks the tail is dropped
   * too and nothing is yielded; dropping that tail writes nothing back
   * (`DroppedTailChangesNothing`), so the source is not part of the step.
   */
  function Nth<T>(it: VectorizedIter<T>, n: nat): (r: Step<T>)
    requires Valid(it)
    ensures Valid(r.iter) && r.iter.vectorizer == it.vectorizer
    ensures n < it.right - it.left ==>
              && it.left + n !in it.fetched && InRange(it.vectorizer, it.left + n)
              && r.iter.fetched == it.fetched + {it.left + n}
    ensures n >= it.right - it.left ==> r.iter.fetched == it.fetched
  {
    var mainLen := it.right - it.left;
    if mainLen >= n then
      Next(it.(left := it.left + n))
    else
      Step(it.(left := it.right, partial := None), None)
  }

  /**
   * `nth(n)` yields the item `n` places on and leaves what follows it
   * pending; past the end it yields nothing and nothing stays pending.
   */
  lemma NthYieldsNth<T>(it: VectorizedIter<T>, n: nat)
    requires Valid(it)
    ensures var s, r := Pending(it), Nth(it, n);
      if n < |s| then r.item == Some(s[n]) && Pending(r.iter) == s[n + 1..]
      else r.item.None? && Pending(r.iter) == []
  {
    if n <= it.right - it.left {
      var skipped := NthSkips(it, n);
      var blocks := BlocksBetween(it.vectorizer, it.left, it.right);
      BlocksBetweenDropFront(it.vectorizer, it.left, it.right, n);
      assert (blocks + OptionToSeq(it.partial))[n..] == blocks[n..] + OptionToSeq(it.partial);
      var s, rest := Pending(it), Pending(skipped);
      assert rest == s[n..];
      NextYieldsHead(skipped);
      if n < |s| {
        assert rest[0] == s[n];
        assert rest[1..] == s[n + 1..];
      }
    } else {
      assert Pending(Nth(it, n).iter) == [];
    }
  }

  /**
   * `vectorize`: an iterator over an unpadded source. It exists exactly
   * when every slice is block-aligned and the sides of every pair have
   * equal block counts; it never holds a tail block.
   */
  function Vectorize<T>(src: Source<T>): (r: Result<VectorizedIter<T>, Error>)
    requires WellFormed(src)
    ensures r.Ok? <==> Aligned(src) && Balanced(src)
    ensures r.Ok? ==>
              && Valid(r.value) && r.value.fetched == {}
              && Views(r.value.vectorizer, src)
              && r.value.partial.None?
              && Count(r.value) == BlockCount(src)
              && forall k :: 0 <= k < Count(r.value) ==>
                   InRange(r.value.vectorizer, k) && Pending(r.value)[k] == Get(r.value.vectorizer, k)
  {
    match Create(src, None)
    case Err(e) => Err(e)
    case Ok(c) =>
      assert c.partial.None? by { AlignedHasNoRest(src); }
      Ok(VectorizedIter(c.vectorizer, 0, c.count, None, {}))
  }

  /**
   * `vectorize_pad`: an iterator over a padded source. It exists exactly
   * when the sides of every pair agree on block count and on having a
   * remainder; it yields every full block and then, when the source leaves
   * a remainder, the padded tail block.
   */
  function VectorizePad<T>(src: Source<T>, pad: Padding<T>): (r: Result<VectorizedIter<T>, Error>)
    requires WellFormed(src) && PadFits(src, pad)
    ensures r.Ok? <==> Balanced(src) && RestsAgree(src)
    ensures r.Ok? ==>
              && Valid(r.value) && r.value.fetched == {}
              && Views(r.value.vectorizer, src)
              && r.value.left == 0 && r.value.right == BlockCount(src)
              && Count(r.value) == BlockCount(src) + (if HasRest(src) then 1 else 0)
              && (forall k :: 0 <= k < BlockCount(src) ==> Pending(r.value)[k] == Get(r.value.vectorizer, k))
              && (r.value.partial.Some? <==> HasRest(src))
              && (r.value.partial.Some? ==>
                    IsPaddedTail(src, pad, r.value.partial.value) && ItemFits(src, r.value.partial.value))
  {
    match Create(src, Some(pad))
    case Err(e) => Err(e)
    case Ok(c) => Ok(VectorizedIter(c.vectorizer, 0, c.count, c.partial, {}))
  }

  /**
   * The tail block a fresh `vectorize_pad` iterator holds, when dropped
   * unused (by `nth` past the end, by `count`, or with the iterator),
   * leaves the source unchanged.
   */
  lemma DroppedTailChangesNothing<T>(src: Source<T>, pad: Padding<T>)
    requires WellFormed(src) && PadFits(src, pad)
    ensures var r := VectorizePad(src, pad);
      r.Ok? && r.value.partial.Some? ==> ReleaseItem(src, r.value.partial.value) == src
  {
    var r := VectorizePad(src, pad);
    if r.Ok? && r.value.partial.Some? {
      UnusedTailReleasesNothing(src, pad, r.value.partial.value);
    }
  }

  /** Consuming forward to exhaustion yields exactly the pending items, in order. */
  function Drain<T>(it: VectorizedIter<T>): (s: seq<Item<T>>)
    requires Valid(it)
    ensures s == Pending(it)
    decreases |Pending(it)|
  {
    NextYieldsHead(it);
    var st := Next(it);
    if st.item.None? then [] else [st.item.value] + Drain(st.iter)
  }

  /** The reverse of a sequence. */
  function Reverse<X>(s: seq<X>): (r: seq<X>)
    ensures |r| == |s|
    ensures forall k :: 0 <= k < |s| ==> r[k] == s[|s| - 1 - k]
  {
    if |s| == 0 then [] else [s[|s| - 1]] + Reverse(s[..|s| - 1])
  }

  /** Consuming backward to exhaustion yields the pending items in reverse, tail first. */
  function DrainBack<T>(it: VectorizedIter<T>): (s: seq<Item<T>>)
    requires Valid(it)
    ensures s == Reverse(Pending(it))
    decreases |Pending(it)|
  {
    NextBackYieldsEnd(it);
    var st := NextBack(it);
    if st.item.None? then [] else [st.item.value] + DrainBack(st.iter)
  }

  /** Reversal keeps the multiset of elements. */
  lemma {:induction false} ReverseMultiset<X>(s: seq<X>)
    ensures multiset(Reverse(s)) == multiset(s)
  {
    if |s| > 0 {
      ReverseMultiset(s[..|s| - 1]);
      assert s == s[..|s| - 1] + [s[|s| - 1]];
    }
  }

  /**
   * Forward and backward consumption yield the same items, and in both
   * the tail block sits at the tail end: last going forward, first going
   * backward.
   */
  lemma BothDirectionsAgree<T>(it: VectorizedIter<T>)
    requires Valid(it)
    ensures multiset(Drain(it)) == multiset(DrainBack(it))
    ensures it.partial.Some? ==>
              Drain(it)[|Drain(it)| - 1] == it.partial.value && DrainBack(it)[0] == it.partial.value
  {
    ReverseMultiset(Pending(it));
  }

  /** `n` forward steps whose results are discarded. */
  function Advance<T>(it: VectorizedIter<T>, n: nat): (r: VectorizedIter<T>)
    requires Valid(it)
    ensures Valid(r)
    decreases n
  {
    if n == 0 then it else Advance(Next(it).iter, n - 1)
  }

  /** The cursor after `n` discarded forward steps. */
  lemma {:induction false} AdvanceState<T>(it: VectorizedIter<T>, n: nat)
    requires Valid(it)
    ensures var a := Advance(it, n);
      && a.vectorizer == it.vectorizer && a.right == it.right
      && a.left == (if it.left + n <= it.right then it.left + n else it.right)
      && a.partial == (if n > it.right - it.left then None else it.partial)
      && it.fetched <= a.fetched
    decreases n
  {
    if n > 0 {
      var next := Next(it).iter;
      NextMovesCursor(it);
      AdvanceState(next, n - 1);
    }
  }

  /** How one forward step moves the cursor's indices and partial slot. */
  lemma NextMovesCursor<T>(it: VectorizedIter<T>)
    requires Valid(it)
    ensures var a := Next(it).iter;
      && a.vectorizer == it.vectorizer && a.right == it.right
      && a.left == (if it.left < it.right then it.left + 1 else it.right)
      && a.partial == (if it.left < it.right then it.partial else None)
      && it.fetched <= a.fetched
  {
  }

  /** Two cursors that differ at most in their fetch logs. */
  ghost predicate SameCursor<T>(x: VectorizedIter<T>, y: VectorizedIter<T>)
  {
    x.vectorizer == y.vectorizer && x.left == y.left && x.right == y.right && x.partial == y.partial
  }

  /** A forward step does not depend on the fetch log. */
  lemma NextIgnoresLog<T>(x: VectorizedIter<T>, y: VectorizedIter<T>)
    requires Valid(x) && Valid(y) && SameCursor(x, y) && y.fetched <= x.fetched
    ensures Next(x).item == Next(y).item
    ensures SameCursor(Next(x).iter, Next(y).iter) && Next(y).iter.fetched <= Next(x).iter.fetched
  {
  }

  /**
   * `nth(n)` behaves like `n` discarded `next` calls followed by `next`:
   * same item and same cursor, except that `nth` fetches fewer blocks.
   */
  lemma NthIsAdvanceThenNext<T>(it: VectorizedIter<T>, n: nat)
    requires Valid(it)
    ensures var a, b := Next(Advance(it, n)), Nth(it, n);
      && a.item == b.item
      && SameCursor(a.iter, b.iter)
      && b.iter.fetched <= a.iter.fetched
  {
    var adv := Advance(it, n);
    AdvanceState(it, n);
    if n <= it.right - it.left {
      var skipped := NthSkips(it, n);
      NextIgnoresLog(adv, skipped);
    } else {
      assert Next(adv).iter == adv;
    }
  }

  /** Within the pending blocks, `nth` is a forward step from the cursor moved `n` blocks on. */
  lemma NthSkips<T>(it: VectorizedIter<T>, n: nat) returns (skipped: VectorizedIter<T>)
    requires Valid(it) && n <= it.right - it.left
    ensures skipped == it.(left := it.left + n) && Valid(skipped)
    ensures Nth(it, n) == Next(skipped)
  {
    skipped := it.(left := it.left + n);
  }

  /** The values carried by the `Some` entries of a sequence of step results. */
  function Yielded<T>(ys: seq<Option<Item<T>>>): seq<Item<T>>
  {
    if |ys| == 0 then []
    else (if ys[0].Some? then [ys[0].value] else []) + Yielded(ys[1..])
  }

  /** One step in the given direction. */
  function StepIn<T>(it: VectorizedIter<T>, d: Direction): (r: Step<T>)
    requires Valid(it)
    ensures Valid(r.iter)
  {
    if d == Forward then Next(it) else NextBack(it)
  }

  /**
   * A step in either direction yields something exactly when items are
   * pending, the count then drops by one, and the fetch log only grows.
   */
  lemma StepCounts<T>(it: VectorizedIter<T>, d: Direction)
    requires Valid(it)
    ensures var st := StepIn(it, d);
      && (st.item.Some? <==> Count(it) > 0)
      && Count(st.iter) == Count(it) - PartialSize(st.item)
      && it.fetched <= st.iter.fetched
  {
    if d == Forward {
      ForwardTakesOne(it);
    } else {
      BackwardTakesOne(it);
    }
  }

  /** What a step yields leaves the pending items: together they are the items pending before. */
  lemma StepKeepsItems<T>(it: VectorizedIter<T>, d: Direction)
    requires Valid(it)
    ensures var st := StepIn(it, d);
      multiset(OptionToSeq(st.item)) + multiset(Pending(st.iter)) == multiset(Pending(it))
  {
    if d == Forward {
      ForwardTakesOne(it);
    } else {
      BackwardTakesOne(it);
    }
  }

  /** One forward step: the head of the pending items leaves. */
  lemma ForwardTakesOne<T>(it: VectorizedIter<T>)
    requires Valid(it)
    ensures var st := Next(it);
      && (st.item.Some? <==> |Pending(it)| > 0)
      && multiset(OptionToSeq(st.item)) + multiset(Pending(st.iter)) == multiset(Pending(it))
      && it.fetched <= st.iter.fetched
  {
    NextYieldsHead(it);
    var st := Next(it);
    SplitOff(Pending(it), st.item, Pending(st.iter), true);
  }

  /** One backward step: the end of the pending items leaves. */
  lemma BackwardTakesOne<T>(it: VectorizedIter<T>)
    requires Valid(it)
    ensures var st := NextBack(it);
      && (st.item.Some? <==> |Pending(it)| > 0)
      && multiset(OptionToSeq(st.item)) + multiset(Pending(st.iter)) == multiset(Pending(it))
      && it.fetched <= st.iter.fetched
  {
    NextBackYieldsEnd(it);
    var st := NextBack(it);
    SplitOff(Pending(it), st.item, Pending(st.iter), false);
  }

  /** Taking the first (or last) element off a sequence keeps the multiset split between the two parts. */
  lemma SplitOff<X>(s: seq<X>, taken: Option<X>, left: seq<X>, fromFront: bool)
    requires |s| == 0 ==> taken.None? && left == s
    requires |s| > 0 && fromFront ==> taken == Some(s[0]) && left == s[1..]
    requires |s| > 0 && !fromFront ==> taken == Some(s[|s| - 1]) && left == s[..|s| - 1]
    ensures multiset(OptionToSeq(taken)) + multiset(left) == multiset(s)
  {
    if |s| > 0 {
      if fromFront {
        assert OptionToSeq(taken) == [s[0]];
        assert s == [s[0]] + s[1..];
      } else {
        assert OptionToSeq(taken) == [s[|s| - 1]];
        assert s == s[..|s| - 1] + [s[|s| - 1]];
      }
    }
  }

  /** Consume the iterator by an arbitrary mix of forward and backward steps. */
  function Run<T>(it: VectorizedIter<T>, ops: seq<Direction>): (r: (VectorizedIter<T>, seq<Option<Item<T>>>))
    requires Valid(it)
    ensures Valid(r.0) && |r.1| == |ops|
    decreases |ops|
  {
    if |ops| == 0 then (it, [])
    else
      var st := StepIn(it, ops[0]);
      var rest := Run(st.iter, ops[1..]);
      (rest.0, [st.item] + rest.1)
  }

  /**
   * Under any mix of `next` and `next_back`, exactly `Count(it)` steps
   * yield something and they are the first ones (the iterator is exact-size
   * and fused); the fetch log only accumulates.
   */
  lemma {:induction false} RunYieldsExactlyCount<T>(it: VectorizedIter<T>, ops: seq<Direction>)
    requires Valid(it)
    ensures forall k :: 0 <= k < |ops| ==> (Run(it, ops).1[k].Some? <==> k < Count(it))
    ensures it.fetched <= Run(it, ops).0.fetched
    decreases |ops|
  {
    if |ops| > 0 {
      var st := StepIn(it, ops[0]);
      StepCounts(it, ops[0]);
      RunYieldsExactlyCount(st.iter, ops[1..]);
      var tail := Run(st.iter, ops[1..]);
      var ys := [st.item] + tail.1;
      assert Run(it, ops) == (tail.0, ys);
      forall k | 1 <= k < |ops|
        ensures ys[k].Some? <==> k < Count(it)
      {
        assert ys[k] == tail.1[k - 1];
      }
    }
  }

  /**
   * Under any mix of `next` and `next_back`, every pending item is either
   * yielded exactly once or still pending afterwards.
   */
  lemma {:induction false} RunYieldsEachItemOnce<T>(it: VectorizedIter<T>, ops: seq<Direction>)
    requires Valid(it)
    ensures multiset(Yielded(Run(it, ops).1)) + multiset(Pending(Run(it, ops).0)) == multiset(Pending(it))
    decreases |ops|
  {
    if |ops| > 0 {
      var st := StepIn(it, ops[0]);
      StepKeepsItems(it, ops[0]);
      RunYieldsEachItemOnce(st.iter, ops[1..]);
      var tail := Run(st.iter, ops[1..]);
      var ys := [st.item] + tail.1;
      assert Run(it, ops) == (tail.0, ys);
      assert ys[1..] == tail.1;
      assert Yielded(ys) == OptionToSeq(st.item) + Yielded(tail.1);
    }
  }
}
