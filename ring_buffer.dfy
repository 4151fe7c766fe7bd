/**
 * The fixed-capacity circular buffer of ring_buffer.hpp. `push` writes at
 * `head`, overwriting the oldest value once the buffer is full; `pop` reads
 * at `tail`. The ghost `Contents` is the queue the slots hold, oldest first.
 */
module Ring {
  import opened Options

  /** A buffer slot: the value and the size recorded when it was written. */
  datatype Slot<T> = Slot(value: T, index: int)

  /** `(x + 1) % c` for an index `x` of a `c`-slot buffer. */
  lemma ModNext(x: int, c: int)
    requires 0 <= x < c
    ensures (x + 1) % c == Wrap(x, 1, c)
  {
  }

  /** `x % c` for `0 <= x < 2c`: one wrap at most. */
  lemma ModWrap(x: int, c: int)
    requires 0 < c && 0 <= x < 2 * c
    ensures x % c == if x < c then x else x - c
  {
    if x >= c {
      assert x == c + (x - c);
      assert (x - c) % c == x - c;
    }
  }

  /** `(t + k) % c` for `0 <= t < c` and `0 <= k <= c`. */
  function Wrap(t: int, k: int, c: int): int {
    if t + k < c then t + k else t + k - c
  }

  /** The slots from `t` on, wrapping around, hold `contents` in order. */
  ghost predicate Holds<T>(slots: seq<Slot<T>>, t: nat, contents: seq<T>) {
    && t < |slots| && |contents| <= |slots|
    && forall k :: 0 <= k < |contents| ==> contents[k] == slots[Wrap(t, k, |slots|)].value
  }

  /** Writing `v` at the slot after the contents keeps them, with `v` appended (the oldest dropped when full). */
  lemma PushKeeps<T>(slots: seq<Slot<T>>, t: nat, contents: seq<T>, v: Slot<T>, full: bool)
    requires Holds(slots, t, contents) && (full <==> |contents| == |slots|)
    ensures Holds(slots[Wrap(t, |contents|, |slots|) := v], if full then Wrap(t, 1, |slots|) else t,
                  if full then contents[1..] + [v.value] else contents + [v.value])
  {
    var c := |slots|;
    var slots' := slots[Wrap(t, |contents|, c) := v];
    var t' := if full then Wrap(t, 1, c) else t;
    var contents' := if full then contents[1..] + [v.value] else contents + [v.value];
    forall k | 0 <= k < |contents'| ensures contents'[k] == slots'[Wrap(t', k, c)].value {
      if k < |contents'| - 1 {
        var j := if full then k + 1 else k;
        assert contents'[k] == contents[j] == slots[Wrap(t, j, c)].value;
        assert Wrap(t', k, c) == Wrap(t, j, c) != Wrap(t, |contents|, c);
      }
    }
  }

  class RingBuffer<T(0)> {
    var buff: array<Slot<T>>
    var capacity: nat
    var size: int
    var head: int
    var tail: int
    ghost var Contents: seq<T>

    /** The slot holding the `k`-th oldest value: `(tail + k) % capacity` for `0 <= k <= capacity`. */
    function At(k: int): int
      reads this
    {
      Wrap(tail, k, capacity)
    }

    ghost predicate Valid()
      reads this, buff
    {
      && buff.Length == capacity > 0
      && 0 <= size <= capacity
      && 0 <= tail < capacity && 0 <= head < capacity
      && head == At(size)
      && |Contents| == size
      && Holds(buff[..], tail, Contents)
    }

    /** `RingBuffer(capacity)`: empty, with both cursors at slot 0. */
    constructor (cap: nat)
      requires cap > 0
      ensures Valid() && fresh(buff)
      ensures capacity == cap && size == 0 && head == 0 && tail == 0 && Contents == []
    {
      buff := new Slot<T>[cap];
      capacity := cap;
      size, head, tail := 0, 0, 0;
      Contents := [];
    }

    /** `push`: appends `v`; when full, the oldest value is dropped first. */
    method Push(v: T)
      requires Valid()
      modifies this, buff
      ensures Valid() && buff == old(buff) && capacity == old(capacity)
      ensures old(size) == capacity ==>
        size == capacity && tail == Wrap(old(tail), 1, capacity) && Contents == old(Contents)[1..] + [v]
      ensures old(size) < capacity ==>
        size == old(size) + 1 && tail == old(tail) && Contents == old(Contents) + [v]
      ensures buff[..] == old(buff[..])[old(head) := Slot(v, size)] && head == Wrap(old(head), 1, capacity)
    {
      ghost var c0, t0, h0, full := Contents, tail, head, size == capacity;
      ghost var slot0 := buff[..];
      if size == capacity {
        ModNext(tail, capacity);
        tail := (tail + 1) % capacity;
        Contents := Contents[1..] + [v];
      } else {
        size := size + 1;
        Contents := Contents + [v];
      }
      buff[head] := Slot(v, size);
      ModNext(head, capacity);
      head := (head + 1) % capacity;
      PushKeeps(slot0, t0, c0, Slot(v, size), full);
      assert buff[..] == slot0[h0 := Slot(v, size)];
    }

    /** `pop`: `None` where the source throws on an empty buffer; otherwise the oldest value, removed. */
    method Pop() returns (r: Option<T>)
      requires Valid()
      modifies this
      ensures Valid() && buff == old(buff) && capacity == old(capacity) && head == old(head)
      ensures old(size) == 0 ==> r == None && size == 0 && tail == old(tail) && Contents == old(Contents)
      ensures old(size) > 0 ==>
        && r == Some(old(Contents)[0]) && Contents == old(Contents)[1..]
        && size == old(size) - 1 && tail == Wrap(old(tail), 1, capacity)
    {
      if size == 0 {
        return None;
      }
      r := Some(buff[tail].value);
      ModNext(tail, capacity);
      tail := (tail + 1) % capacity;
      size := size - 1;
      Contents := Contents[1..];
    }

    /**
     * `front`: `None` where the source throws; otherwise slot `head`, the slot
     * the next `push` writes. Only a full buffer keeps its oldest value there.
     */
    function Front(): (r: Option<T>)
      reads this, buff
      requires Valid()
      ensures r.Some? <==> size > 0
      ensures r.Some? ==> r.value == buff[head].value
      ensures size == capacity ==> r == Some(Contents[0])
    {
      if size == 0 then None else Some(buff[head].value)
    }

    /** `back`: the same slot as `front`; the `last` index it computes is never used. */
    function Back(): (r: Option<T>)
      reads this, buff
      requires Valid()
      ensures r.Some? <==> size > 0
      ensures r == Front()
    {
      if size == 0 then None else Some(buff[head].value)
    }

    /** The oldest value, read at `tail`, as `front` evidently intends. */
    function Oldest(): (r: Option<T>)
      reads this, buff
      requires Valid()
      ensures r == if size == 0 then None else Some(Contents[0])
    {
      if size == 0 then None else Some(buff[tail].value)
    }

    /** The newest value, read at `(head - 1 + capacity) % capacity`, as `back` evidently intends. */
    function Newest(): (r: Option<T>)
      reads this, buff
      requires Valid()
      ensures r == if size == 0 then None else Some(Contents[size - 1])
    {
      if size == 0 then None
      else
        var last := (head - 1 + capacity) % capacity;
        ModWrap(head - 1 + capacity, capacity);
        Some(buff[last].value)
    }
  }

  /** The invariant in the source's terms: `head == (tail + size) % capacity`. */
  lemma HeadFollowsTail<T(0)>(b: RingBuffer<T>)
    requires b.Valid()
    ensures b.head == (b.tail + b.size) % b.capacity
    ensures forall k :: 0 <= k < b.size ==> b.At(k) == (b.tail + k) % b.capacity
  {
    ModWrap(b.tail + b.size, b.capacity);
    forall k | 0 <= k < b.size ensures b.At(k) == (b.tail + k) % b.capacity {
      ModWrap(b.tail + k, b.capacity);
    }
  }

  /**
   * With some but not all slots in use, `front` and `back` read the slot
   * `head`, which holds none of the buffer's values.
   */
  lemma FrontReadsFreeSlot<T(0)>(b: RingBuffer<T>)
    requires b.Valid() && 0 < b.size < b.capacity
    ensures b.Front() == b.Back() == Some(b.buff[b.head].value)
    ensures forall k :: 0 <= k < b.size ==> b.At(k) != b.head
  {
  }

  /** Values leave in the order they were pushed while the buffer has room. */
  method PushPopDemo() returns (first: Option<int>, second: Option<int>, third: Option<int>)
    ensures first == Some(1) && second == Some(2) && third == None
  {
    var b := new RingBuffer<int>(2);
    b.Push(1);
    b.Push(2);
    first := b.Pop();
    second := b.Pop();
    third := b.Pop();
  }

  /** Pushing past capacity drops the oldest values. */
  method OverwriteDemo() returns (first: Option<int>, second: Option<int>)
    ensures first == Some(2) && second == Some(3)
  {
    var b := new RingBuffer<int>(2);
    b.Push(1);
    b.Push(2);
    b.Push(3);
    first := b.Pop();
    second := b.Pop();
  }
}
