/**
 * The `CopyRing` ring buffer of `cron/src/collection/copy_ring.rs` and the
 * bounded iterators of `cron/src/collection/iter.rs`.
 *
 * A ring is a fixed slice with a cursor `index`, an `init` flag recording
 * whether the cursor has ever been moved, and a `stride` by which `next`
 * and `prev` move it.  The ring never ends: reading past the last slot
 * continues at the first.
 */
module Ring {
  import opened Wrappers
  import opened Arith
  import opened Collection

  /**
   * The `count` values a ring yields from slot `start` when every step moves
   * the cursor `stride` slots on.
   */
  function Window<T>(items: seq<T>, start: nat, stride: nat, count: nat): (w: seq<T>)
    requires start < |items|
    ensures |w| == count
    ensures count > 0 ==> w[0] == items[start]
    decreases count
  {
    if count == 0 then []
    else [items[start]] + Window(items, NewIdxLeft(start, stride, |items|), stride, count - 1)
  }

  /** With stride 1, the k-th value of a window is the slot k places after the start. */
  lemma {:induction false} WindowAt<T>(items: seq<T>, start: nat, count: nat, k: nat)
    requires start < |items| && k < count
    ensures Window(items, start, 1, count)[k] == items[(start + k) % |items|]
    decreases k
  {
    var n := |items|;
    if k == 0 {
      ModSmall(start, n);
    } else {
      var next := NewIdxLeft(start, 1, n);
      WindowAt(items, next, count - 1, k - 1);
      ModAddLeft(start + 1, k - 1, n);
    }
  }

  /** One full cycle from the first slot with stride 1 yields the slice itself, in order. */
  lemma OneCycleIsSlice<T>(items: seq<T>)
    requires |items| > 0
    ensures Window(items, 0, 1, |items|) == items
  {
    var w := Window(items, 0, 1, |items|);
    forall k | 0 <= k < |items|
      ensures w[k] == items[k]
    {
      WindowAt(items, 0, |items|, k);
      ModSmall(k, |items|);
    }
  }

  /**
   * Taking more values than the period from the first slot yields the slice
   * in order first, and then starts over.
   */
  lemma LongWindowStartsWithSlice<T>(items: seq<T>, count: nat)
    requires |items| > 0 && count >= |items|
    ensures Window(items, 0, 1, count)[..|items|] == items
    ensures forall k :: |items| <= k < count ==>
      Window(items, 0, 1, count)[k] == Window(items, 0, 1, count)[k - |items|]
  {
    var n := |items|;
    var w := Window(items, 0, 1, count);
    forall k | 0 <= k < n
      ensures w[k] == items[k]
    {
      WindowAt(items, 0, count, k);
      ModSmall(k, n);
    }
    forall k | n <= k < count
      ensures w[k] == w[k - n]
    {
      WindowAt(items, 0, count, k);
      WindowAt(items, 0, count, k - n);
      ModPeriodic(k - n, n);
    }
  }

  /** A ring of one value yields that value forever, whatever the stride. */
  lemma {:induction false} SingleValueForever<T>(v: T, stride: nat, count: nat)
    ensures forall k :: 0 <= k < count ==> Window([v], 0, stride, count)[k] == v
    decreases count
  {
    if count > 0 {
      assert NewIdxLeft(0, stride, 1) == 0;
      SingleValueForever(v, stride, count - 1);
    }
  }

  predicate Sorted(s: seq<nat>)
  {
    forall i, j :: 0 <= i < j < |s| ==> s[i] <= s[j]
  }

  predicate StrictlyIncreasing(s: seq<nat>)
  {
    forall i, j :: 0 <= i < j < |s| ==> s[i] < s[j]
  }

  /**
   * The position of the first value at least `x`, or the length when there
   * is none: the stopping point of every "first value at or after" scan.
   */
  function FirstAtLeast(s: seq<nat>, x: nat): (i: nat)
    ensures i <= |s|
    ensures forall j :: 0 <= j < i ==> s[j] < x
    ensures i < |s| ==> s[i] >= x
  {
    if |s| == 0 then 0
    else if s[0] >= x then 0
    else 1 + FirstAtLeast(s[1..], x)
  }

  /** The three facts in FirstAtLeast's contract determine the position. */
  lemma FirstAtLeastUnique(s: seq<nat>, x: nat, i: nat)
    requires i <= |s|
    requires forall j :: 0 <= j < i ==> s[j] < x
    requires i < |s| ==> s[i] >= x
    ensures FirstAtLeast(s, x) == i
  {
  }

  /** Everything left of `lo` is below `x` and everything from `hi` on is not. */
  ghost predicate Partitioned(s: seq<nat>, x: nat, lo: nat, hi: nat)
  {
    (forall j :: 0 <= j < lo && j < |s| ==> s[j] < x) &&
    (forall j :: hi <= j < |s| ==> s[j] >= x)
  }

  /**
   * `slice::binary_search` reduced to the index that both of its outcomes
   * carry (`Ok(i)` or `Err(i)`), as `binary_search_or_greater` uses it.  The
   * search halves the range `lo..hi`; on a sorted slice it lands on the
   * first value at least `x`.
   */
  function SearchBetween(s: seq<nat>, x: nat, lo: nat, hi: nat): (i: nat)
    requires lo <= hi <= |s|
    ensures lo <= i <= hi
    ensures Sorted(s) && Partitioned(s, x, lo, hi) ==> i == FirstAtLeast(s, x)
    decreases hi - lo
  {
    if lo == hi then
      assert Sorted(s) && Partitioned(s, x, lo, hi) ==> lo == FirstAtLeast(s, x) by {
        if Sorted(s) && Partitioned(s, x, lo, hi) {
          FirstAtLeastUnique(s, x, lo);
        }
      }
      lo
    else
      var mid := lo + (hi - lo) / 2;
      if s[mid] < x then SearchBetween(s, x, mid + 1, hi)
      else SearchBetween(s, x, lo, mid)
  }

  function BinarySearch(s: seq<nat>, x: nat): (i: nat)
    ensures i <= |s|
    ensures Sorted(s) ==> i == FirstAtLeast(s, x)
  {
    SearchBetween(s, x, 0, |s|)
  }

  /**
   * On a sorted slice the search's index is the least value at least `x`,
   * and it equals the length exactly when every value is below `x`.
   */
  lemma SearchFindsLeastAtLeast(s: seq<nat>, x: nat)
    requires Sorted(s)
    ensures var i := BinarySearch(s, x);
      (i == |s| <==> forall e :: e in s ==> e < x) &&
      (i < |s| ==> s[i] >= x && forall e :: e in s && e >= x ==> s[i] <= e)
  {
    var i := BinarySearch(s, x);
    if i < |s| {
      assert s[i] in s;
      forall e | e in s && e >= x
        ensures s[i] <= e
      {
        var j :| 0 <= j < |s| && s[j] == e;
      }
    }
  }

  class CopyRing<T> {
    const items: seq<T>
    var index: nat
    var init: bool
    var stride: nat

    /** The cursor is a slot of the slice, or 0 when there is none. */
    ghost predicate Valid()
      reads this
    {
      if |items| == 0 then index == 0 else index < |items|
    }

    /** A new ring starts at the first slot, not yet moved, with stride 1. */
    constructor (items: seq<T>)
      ensures this.items == items
      ensures index == 0 && !init && stride == 1
      ensures Valid()
    {
      this.items := items;
      index := 0;
      init := false;
      stride := 1;
    }

    /** Back to the first slot, as if never moved; the stride is kept. */
    method Reset()
      modifies this
      ensures index == 0 && !init && stride == old(stride)
      ensures Valid()
    {
      index := 0;
      init := false;
    }

    function Period(): (p: nat)
      ensures p == |items|
    {
      |items|
    }

    predicate IsEmpty()
      ensures IsEmpty() <==> Period() == 0
    {
      |items| == 0
    }

    function First(): (r: Option<T>)
      ensures r.Some? <==> |items| > 0
      ensures r.Some? ==> r.value == items[0]
    {
      if |items| == 0 then None else Some(items[0])
    }

    function Last(): (r: Option<T>)
      ensures r.Some? <==> |items| > 0
      ensures r.Some? ==> r.value == items[|items| - 1]
    {
      if |items| == 0 then None else Some(items[|items| - 1])
    }

    method SetStride(stride: nat)
      modifies this
      ensures this.stride == stride && index == old(index) && init == old(init)
    {
      this.stride := stride;
    }

    /** The value `next` would return, without moving the cursor. */
    function PeekNext(): (r: Option<T>)
      reads this
      requires Valid()
      ensures r.Some? <==> |items| > 0
      ensures r.Some? ==> r.value == items[index]
    {
      if |items| == 0 then None else Some(items[index])
    }

    /** The value one stride behind the cursor, without moving it. */
    function PeekPrev(): (r: Option<T>)
      reads this
      requires Valid()
      ensures r.Some? <==> |items| > 0
      ensures r.Some? ==> r.value == items[(index - stride) % |items|]
    {
      if |items| == 0 then None
      else
        NewIdxRightIsSubtraction(index, stride, |items|);
        Some(items[NewIdxRight(index, stride, |items|)])
    }

    /** Moves the cursor `n` slots on; a non-zero move marks the ring as moved. */
    method RotateLeft(n: nat)
      requires |items| > 0
      modifies this
      ensures index == NewIdxLeft(old(index), n, |items|)
      ensures index == (old(index) + n) % |items|
      ensures init == (n != 0 || old(init))
      ensures stride == old(stride)
      ensures Valid()
    {
      index := NewIdxLeft(index, n, |items|);
      init := n != 0 || init;
    }

    /** Moves the cursor `n` slots back; a non-zero move marks the ring as moved. */
    method RotateRight(n: nat)
      requires |items| > 0
      modifies this
      ensures index == NewIdxRight(old(index), n, |items|)
      ensures index == (old(index) - n) % |items|
      ensures init == (n != 0 || old(init))
      ensures stride == old(stride)
      ensures Valid()
    {
      NewIdxRightIsSubtraction(index, n, |items|);
      index := NewIdxRight(index, n, |items|);
      init := n != 0 || init;
    }

    /**
     * Returns the value at the cursor and moves the cursor one stride on;
     * an empty ring returns None and stays as it is.
     */
    method Next() returns (r: Option<T>)
      requires Valid()
      modifies this
      ensures Valid() && stride == old(stride)
      ensures r == old(PeekNext())
      ensures |items| == 0 ==> index == old(index) && init == old(init)
      ensures |items| > 0 ==> index == (old(index) + stride) % |items|
      ensures |items| > 0 ==> init == (stride != 0 || old(init))
    {
      if |items| == 0 {
        return None;
      }
      var i := index;
      RotateLeft(stride);
      r := Some(items[i]);
    }

    /**
     * Like `next`, and also reports whether the ring wrapped: the cursor was
     * on the first slot and the ring had already been moved.
     */
    method CheckedNext() returns (r: Option<(T, bool)>)
      requires Valid()
      modifies this
      ensures Valid() && stride == old(stride)
      ensures |items| == 0 ==> r == None && index == old(index) && init == old(init)
      ensures |items| > 0 ==> r == Some((items[old(index)], old(index) == 0 && old(init)))
      ensures |items| > 0 ==> index == (old(index) + stride) % |items|
      ensures |items| > 0 ==> init == (stride != 0 || old(init))
    {
      var wasInit := init;
      var prevIndex := index;
      var next := Next();
      if next.None? {
        return None;
      }
      r := Some((next.value, prevIndex == 0 && wasInit));
    }

    /**
     * Returns the value at the cursor and moves the cursor one stride back,
     * so a `prev` right after a `next` returns the slot `next` moved onto.
     */
    method Prev() returns (r: Option<T>)
      requires Valid()
      modifies this
      ensures Valid() && stride == old(stride)
      ensures r == old(PeekNext())
      ensures |items| == 0 ==> index == old(index) && init == old(init)
      ensures |items| > 0 ==> index == (old(index) - stride) % |items|
      ensures |items| > 0 ==> init == (stride != 0 || old(init))
    {
      if |items| == 0 {
        return None;
      }
      var i := index;
      RotateRight(stride);
      r := Some(items[i]);
    }

    /** An iterator yielding the next `n` values, moving this ring as it goes. */
    method TakeMut(n: nat) returns (it: CycleIterMut<T>)
      ensures fresh(it) && it.ring == this && it.n == n
    {
      it := new CycleIterMut(this, n);
    }

    /** An iterator over one period of the ring, starting at the cursor. */
    method OneCycle() returns (it: CycleIterMut<T>)
      ensures fresh(it) && it.ring == this && it.n == |items|
    {
      it := TakeMut(Period());
    }

    /** An iterator over the values from the cursor up to the end of the slice. */
    method UntilStart() returns (it: CycleIterMut<T>)
      requires Valid()
      ensures fresh(it) && it.ring == this && it.n == |items| - index
    {
      it := TakeMut(Period() - index);
    }

    /** An iterator over the next `n` values that leaves this ring where it is. */
    method TakeRef(n: nat) returns (it: CycleIter<T>)
      requires Valid()
      ensures fresh(it) && it.buf == items && it.index == index && it.n == n
    {
      it := new CycleIter(items, index, n);
    }
  }

  /** The ring's tests: `next` followed by two `prev` calls returns the value `next` returned. */
  method NextThenPrevTwice<T>(ring: CopyRing<T>) returns (a: T, b: T)
    requires ring.Valid() && |ring.items| > 0
    modifies ring
    ensures a == b == old(ring.items[ring.index])
  {
    ghost var start := ring.index;
    var n := ring.Next();
    ghost var ahead := ring.index;
    var _ := ring.Prev();
    StepBackUndoes(start, ring.stride, |ring.items|, ahead);
    assert ring.index == start;
    var p := ring.Prev();
    a, b := n.value, p.value;
  }

  /** A step back by the stride from the slot one step ahead of `cur` is `cur` again. */
  lemma StepBackUndoes(cur: nat, stride: nat, period: nat, ahead: int)
    requires period > 0 && cur < period && ahead == (cur + stride) % period
    ensures (ahead - stride) % period == cur
  {
    RightUndoesLeft(cur, stride, period);
    NewIdxRightIsSubtraction(NewIdxLeft(cur, stride, period), stride, period);
  }

  /** The ring's tests: on a new ring, the second `prev` returns the slice's last value. */
  method PrevTwiceFromStart<T>(items: seq<T>) returns (v: T)
    requires |items| > 0
    ensures v == items[|items| - 1]
  {
    var ring := new CopyRing(items);
    var _ := ring.Prev();
    var p := ring.Prev();
    ModUnique(0 - 1, |items|, -1, |items| - 1);
    v := p.value;
  }

  /**
   * `binary_search_or_greater`: resets the ring, moves the cursor to the
   * search index and takes a checked step.  The flag is true exactly when
   * the index fell past the end, in which case the value is the first slot.
   */
  method BinarySearchOrGreater(ring: CopyRing<nat>, x: nat) returns (r: Option<(nat, bool)>)
    requires ring.Valid() && |ring.items| > 0
    modifies ring
    ensures ring.Valid() && ring.stride == old(ring.stride)
    ensures var i := BinarySearch(ring.items, x);
            var n := |ring.items|;
            r == Some((ring.items[i % n], i == n)) &&
            ring.index == (i % n + ring.stride) % n &&
            ring.init == (i != 0 || ring.stride != 0)
  {
    ring.Reset();
    var i := BinarySearch(ring.items, x);
    ring.RotateLeft(i);
    r := ring.CheckedNext();
    if i < |ring.items| {
      ModSmall(i, |ring.items|);
    } else {
      assert i == 1 * |ring.items| + 0;
      ModUnique(i, |ring.items|, 1, 0);
    }
  }

  /** A bounded iterator over a ring it moves (`CycleIterMut`). */
  class CycleIterMut<T> {
    const ring: CopyRing<T>
    var n: nat

    ghost predicate Valid()
      reads this, ring
    {
      ring.Valid()
    }

    constructor (ring: CopyRing<T>, n: nat)
      ensures this.ring == ring && this.n == n
    {
      this.ring := ring;
      this.n := n;
    }

    /** The values this iterator has yet to yield. */
    ghost function Remaining(): seq<T>
      reads this, ring
      requires Valid()
    {
      if |ring.items| == 0 then [] else Window(ring.items, ring.index, ring.stride, n)
    }

    /** Both bounds are the counter, which is exactly the number of values left. */
    function SizeHint(): (h: (nat, Option<nat>))
      reads this, ring
      requires Valid()
      ensures h == (n, Some(n))
      ensures |ring.items| > 0 ==> h.0 == |Remaining()|
    {
      (n, Some(n))
    }

    /**
     * Yields nothing once the counter is 0; otherwise counts down and
     * delegates to the ring's `next`.
     */
    method Next() returns (r: Option<T>)
      requires Valid()
      modifies this, ring
      ensures Valid() && ring.stride == old(ring.stride)
      ensures old(n) == 0 ==> r == None && n == 0 && ring.index == old(ring.index) && ring.init == old(ring.init)
      ensures old(n) > 0 ==> n == old(n) - 1 && r == old(ring.PeekNext())
      ensures old(n) > 0 && |ring.items| > 0 ==>
        ring.index == (old(ring.index) + ring.stride) % |ring.items| && ring.init == (ring.stride != 0 || old(ring.init))
      ensures r == if old(Remaining()) == [] then None else Some(old(Remaining())[0])
      ensures Remaining() == if old(Remaining()) == [] then [] else old(Remaining())[1..]
    {
      if n == 0 {
        return None;
      }
      n := n - 1;
      r := ring.Next();
    }

    /** The same countdown, delegating to the ring's `checked_next`. */
    method CheckedNext() returns (r: Option<(T, bool)>)
      requires Valid()
      modifies this, ring
      ensures Valid() && ring.stride == old(ring.stride)
      ensures old(n) == 0 ==> r == None && n == 0 && ring.index == old(ring.index) && ring.init == old(ring.init)
      ensures old(n) > 0 ==> n == old(n) - 1
      ensures old(n) > 0 && |ring.items| == 0 ==> r == None
      ensures old(n) > 0 && |ring.items| > 0 ==>
        r == Some((ring.items[old(ring.index)], old(ring.index) == 0 && old(ring.init))) &&
        ring.index == (old(ring.index) + ring.stride) % |ring.items| && ring.init == (ring.stride != 0 || old(ring.init))
      ensures r.Some? == (old(Remaining()) != []) && (r.Some? ==> r.value.0 == old(Remaining())[0])
      ensures Remaining() == if old(Remaining()) == [] then [] else old(Remaining())[1..]
    {
      if n == 0 {
        return None;
      }
      n := n - 1;
      r := ring.CheckedNext();
    }

    method Checked() returns (c: Checked<T>)
      ensures fresh(c) && c.inner == this
    {
      c := new Checked(this);
    }
  }

  /** The adaptor yielding each value with the ring's wrap flag (`Checked`). */
  class Checked<T> {
    const inner: CycleIterMut<T>

    constructor (inner: CycleIterMut<T>)
      ensures this.inner == inner
    {
      this.inner := inner;
    }

    function SizeHint(): (h: (nat, Option<nat>))
      reads this, inner, inner.ring
      requires inner.Valid()
      ensures h == (inner.n, Some(inner.n))
    {
      inner.SizeHint()
    }

    method Next() returns (r: Option<(T, bool)>)
      requires inner.Valid()
      modifies inner, inner.ring
      ensures inner.Valid() && inner.ring.stride == old(inner.ring.stride)
      ensures old(inner.n) == 0 ==>
        r == None && inner.n == 0 && inner.ring.index == old(inner.ring.index) && inner.ring.init == old(inner.ring.init)
      ensures old(inner.n) > 0 ==> inner.n == old(inner.n) - 1
      ensures old(inner.n) > 0 && |inner.ring.items| > 0 ==>
        r == Some((inner.ring.items[old(inner.ring.index)], old(inner.ring.index) == 0 && old(inner.ring.init))) &&
        inner.ring.index == (old(inner.ring.index) + inner.ring.stride) % |inner.ring.items| &&
        inner.ring.init == (inner.ring.stride != 0 || old(inner.ring.init))
    {
      r := inner.CheckedNext();
    }
  }

  /**
   * A bounded iterator over a slice that steps one slot at a time, whatever
   * the ring's stride, and moves no ring (`CycleIter`, behind `take_ref`).
   */
  class CycleIter<T> {
    const buf: seq<T>
    var index: nat
    var n: nat

    /** A non-exhausted iterator points into a non-empty slice. */
    ghost predicate Valid()
      reads this
    {
      n > 0 ==> index < |buf|
    }

    constructor (buf: seq<T>, index: nat, n: nat)
      ensures this.buf == buf && this.index == index && this.n == n
    {
      this.buf := buf;
      this.index := index;
      this.n := n;
    }

    ghost function Remaining(): seq<T>
      reads this
      requires Valid()
    {
      if n == 0 then [] else Window(buf, index, 1, n)
    }

    function SizeHint(): (h: (nat, Option<nat>))
      reads this
      requires Valid()
      ensures h == (n, Some(n)) && n == |Remaining()|
    {
      (n, Some(n))
    }

    method Next() returns (r: Option<T>)
      requires Valid()
      modifies this
      ensures Valid()
      ensures old(n) == 0 ==> r == None && n == 0 && index == old(index)
      ensures old(n) > 0 ==> r == Some(buf[old(index)]) && n == old(n) - 1 && index == (old(index) + 1) % |buf|
      ensures r == if old(Remaining()) == [] then None else Some(old(Remaining())[0])
      ensures Remaining() == if old(Remaining()) == [] then [] else old(Remaining())[1..]
    {
      if n == 0 {
        return None;
      }
      n := n - 1;
      var i := index;
      index := (index + 1) % |buf|;
      r := Some(buf[i]);
    }
  }

  /**
   * The loop `for v in it { if v >= x { found = true; break } }` that every
   * cron field search runs over its ring.  It stops on the first value at
   * least `x`, which it has consumed, or after the iterator runs out.
   */
  method ScanAtLeast(it: CycleIterMut<nat>, x: nat) returns (found: bool)
    requires it.Valid() && |it.ring.items| > 0 && it.ring.stride == 1
    modifies it, it.ring
    ensures it.Valid() && it.ring.stride == 1
    ensures var w := old(it.Remaining());
            var k := FirstAtLeast(w, x);
            var steps := if k < |w| then k + 1 else |w|;
            found == (k < |w|) &&
            it.ring.index == (old(it.ring.index) + steps) % |it.ring.items| &&
            it.ring.init == (old(it.ring.init) || |w| > 0) &&
            it.n == old(it.n) - steps
  {
    ghost var w := it.Remaining();
    ghost var s := it.ring.index;
    ghost var init0 := it.ring.init;
    var n := |it.ring.items|;
    ghost var items := it.ring.items;
    ModSmall(s, n);
    found := false;
    ghost var j: nat := 0;
    while true
      invariant it.Valid() && it.ring.stride == 1 && it.ring.items == items
      invariant j <= |w| && it.n == |w| - j
      invariant forall i :: 0 <= i < j ==> w[i] < x
      invariant it.ring.index == (s + j) % n
      invariant it.ring.init == (init0 || j > 0)
      decreases it.n
    {
      ghost var cur := it.ring.index;
      var v := it.Next();
      if v.None? {
        FirstAtLeastUnique(w, x, j);
        break;
      }
      WindowAt(items, s, |w|, j);
      SlotAdvance(s, j, n, cur);
      if v.value >= x {
        found := true;
        FirstAtLeastUnique(w, x, j);
        break;
      }
      j := j + 1;
    }
  }

  /**
   * The same scan over `it.checked()`, also returning the wrap flag that came
   * with the value that stopped it (false when nothing did).
   */
  method ScanAtLeastChecked(it: Checked<nat>, x: nat) returns (found: bool, overflow: bool)
    requires it.inner.Valid() && |it.inner.ring.items| > 0 && it.inner.ring.stride == 1
    modifies it.inner, it.inner.ring
    ensures it.inner.Valid() && it.inner.ring.stride == 1
    ensures var w := old(it.inner.Remaining());
            var k := FirstAtLeast(w, x);
            var steps := if k < |w| then k + 1 else |w|;
            var s := old(it.inner.ring.index);
            found == (k < |w|) &&
            overflow == (found && (s + k) % |it.inner.ring.items| == 0 && (old(it.inner.ring.init) || k > 0)) &&
            it.inner.ring.index == (s + steps) % |it.inner.ring.items| &&
            it.inner.ring.init == (old(it.inner.ring.init) || |w| > 0) &&
            it.inner.n == old(it.inner.n) - steps
  {
    ghost var w := it.inner.Remaining();
    ghost var s := it.inner.ring.index;
    ghost var init0 := it.inner.ring.init;
    var n := |it.inner.ring.items|;
    ghost var items := it.inner.ring.items;
    ModSmall(s, n);
    found, overflow := false, false;
    ghost var j: nat := 0;
    while true
      invariant it.inner.Valid() && it.inner.ring.stride == 1 && it.inner.ring.items == items
      invariant j <= |w| && it.inner.n == |w| - j
      invariant forall i :: 0 <= i < j ==> w[i] < x
      invariant it.inner.ring.index == (s + j) % n
      invariant it.inner.ring.init == (init0 || j > 0)
      decreases it.inner.n
    {
      ghost var cur := it.inner.ring.index;
      var v := it.Next();
      if v.None? {
        FirstAtLeastUnique(w, x, j);
        break;
      }
      WindowAt(items, s, |w|, j);
      SlotAdvance(s, j, n, cur);
      if v.value.0 >= x {
        found := true;
        overflow := v.value.1;
        FirstAtLeastUnique(w, x, j);
        break;
      }
      j := j + 1;
    }
  }
}
