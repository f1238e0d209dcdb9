/** Circular arrays: the record queue and the thread pool's task queue store their
    elements in `size` slots and advance their indices modulo `size`. */
module Ring {

  /** The index step of both rings: `(i + 1) % size`. */
  function Advance(i: nat, size: nat): nat
    requires i < size
  {
    (i + 1) % size
  }

  /** The slot `k` places after `start`, counting around the end of the ring. */
  function Slot(start: nat, k: nat, size: nat): (r: nat)
    requires start < size && k <= size
    ensures r < size
  {
    if start + k < size then start + k else start + k - size
  }

  lemma SlotIsModular(start: nat, k: nat, size: nat)
    requires start < size && k <= size
    ensures Slot(start, k, size) == (start + k) % size
    ensures k < size ==> Advance(Slot(start, k, size), size) == Slot(start, k + 1, size)
    ensures k < size ==> Slot(Advance(start, size), k, size) == Slot(start, k + 1, size)
  {
    SmallMod(start + k, size);
    SmallMod(start + 1, size);
    SmallMod(Slot(start, k, size) + 1, size);
  }

  lemma SmallMod(a: nat, size: nat)
    requires a < 2 * size
    ensures a % size == if a < size then a else a - size
  {
  }

  lemma DivModUnique(a: nat, size: nat, q: nat, r: nat)
    requires r < size && a == q * size + r
    ensures a / size == q && a % size == r
  {
    var d := a / size - q;
    assert size * d == r - a % size;
    AtLeastOneStep(size, d);
  }

  lemma AtLeastOneStep(size: nat, d: int)
    ensures 1 <= d ==> size <= size * d
    ensures d <= -1 ==> size * d + size <= 0
  {
  }

  /** The `len` elements held from slot `start` on, in queue order. */
  function Window<T>(slots: seq<T>, start: nat, len: nat): (w: seq<T>)
    requires start < |slots| && len <= |slots|
    ensures |w| == len
  {
    if len == 0 then [] else Window(slots, start, len - 1) + [slots[Slot(start, len - 1, |slots|)]]
  }

  lemma {:induction false} WindowIgnoresFreeSlots<T>(slots: seq<T>, start: nat, len: nat, k: nat, x: T)
    requires start < |slots| && len <= k < |slots|
    ensures Window(slots[Slot(start, k, |slots|) := x], start, len) == Window(slots, start, len)
  {
    if 0 < len { WindowIgnoresFreeSlots(slots, start, len - 1, k, x); }
  }

  /** Writing the first free slot appends; the old elements stay where they were. */
  lemma WindowAppend<T>(slots: seq<T>, start: nat, len: nat, x: T)
    requires start < |slots| && len < |slots|
    ensures Window(slots[Slot(start, len, |slots|) := x], start, len + 1) == Window(slots, start, len) + [x]
  {
    WindowIgnoresFreeSlots(slots, start, len, len, x);
  }

  /** Advancing the start drops exactly the oldest element. */
  lemma {:induction false} WindowDrop<T>(slots: seq<T>, start: nat, len: nat)
    requires start < |slots| && 0 < len <= |slots|
    ensures Window(slots, start, len) == [slots[start]] + Window(slots, Advance(start, |slots|), len - 1)
  {
    if 1 < len {
      WindowDrop(slots, start, len - 1);
      SlotIsModular(start, len - 2, |slots|);
    }
  }
}
