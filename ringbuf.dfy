/**
 * The ring buffer of src/ringbuf.h and src/ringbuf.c: a power-of-two circular
 * index (head, tail, wrap = size - 1) over a data array. It holds up to wrap
 * items; push writes at head, pop reads at tail, and the acquire/current/
 * release calls hand out slot indices in the same order without touching
 * the data.
 *
 * `x & wrap` on the int32_t fields is `x % (wrap + 1)` here: for a power-of-two
 * size and two's-complement x the two agree, and Dafny's `%` never returns a
 * negative value.
 */
module RingBuffer {
  import opened Arith

  /** size must be a power of two. */
  predicate IsPow2(n: int)
    decreases n
  {
    n == 1 || (n >= 2 && n % 2 == 0 && IsPow2(n / 2))
  }

  /** `x & wrap`. */
  function Mask(x: int, wrap: int): int
    requires wrap >= 0
  {
    x % (wrap + 1)
  }

  /** On the values the fields take, masking subtracts or adds one size. */
  lemma MaskRange(x: int, wrap: int)
    requires 0 <= wrap && -(wrap + 1) <= x < 2 * (wrap + 1)
    ensures Mask(x, wrap) == if x < 0 then x + wrap + 1 else if x <= wrap then x else x - wrap - 1
  {
    if x < 0 {
      MaskShift(x, wrap, -1);
    } else if x <= wrap {
      MaskShift(x, wrap, 0);
    } else {
      MaskShift(x, wrap, 1);
    }
  }

  /** Masking x from the size-long run that starts at k sizes subtracts k sizes. */
  lemma MaskShift(x: int, wrap: int, k: int)
    requires 0 <= wrap && k * (wrap + 1) <= x < (k + 1) * (wrap + 1)
    ensures Mask(x, wrap) == x - k * (wrap + 1)
  {
    DivModUnique(x, wrap + 1, k, x - k * (wrap + 1));
  }

  /** rb_count on the field values: (head - tail) & wrap. */
  function CountOf(head: int, tail: int, wrap: int): (n: int)
    requires 0 <= head <= wrap && 0 <= tail <= wrap
    ensures 0 <= n <= wrap
    ensures n == 0 <==> tail == head
    ensures n == if head >= tail then head - tail else head - tail + wrap + 1
  {
    MaskRange(head - tail, wrap);
    Mask(head - tail, wrap)
  }

  /** The count slot indices from tail on, modulo size. */
  function SlotsOf(tail: int, count: nat, wrap: int): (s: seq<int>)
    requires 0 <= tail <= wrap && count <= wrap + 1
    ensures |s| == count
    ensures forall i :: 0 <= i < count ==> s[i] == if tail + i <= wrap then tail + i else tail + i - wrap - 1
    ensures forall i :: 0 <= i < count ==> 0 <= s[i] <= wrap
  {
    seq(count, i requires 0 <= i < count => Slot(tail, i, wrap))
  }

  function Slot(tail: int, i: int, wrap: int): (k: int)
    requires 0 <= tail <= wrap && 0 <= i <= wrap
    ensures k == if tail + i <= wrap then tail + i else tail + i - wrap - 1
  {
    MaskRange(tail + i, wrap);
    Mask(tail + i, wrap)
  }

  /** The elements of d at the given slots. */
  function ContentsOf<T>(d: seq<T>, slots: seq<int>): (c: seq<T>)
    requires forall i :: 0 <= i < |slots| ==> 0 <= slots[i] < |d|
    ensures |c| == |slots|
    ensures forall i :: 0 <= i < |slots| ==> c[i] == d[slots[i]]
  {
    seq(|slots|, i requires 0 <= i < |slots| => d[slots[i]])
  }

  /** Advancing head by one slot appends the old head to the slots, and the
      old head is not among the occupied slots while there is space. */
  lemma SlotsAdvanceHead(head: int, tail: int, wrap: int)
    requires 0 <= head <= wrap && 0 <= tail <= wrap && CountOf(head, tail, wrap) < wrap
    ensures 0 <= Mask(head + 1, wrap) <= wrap
    ensures Mask(head + 1, wrap) == if head < wrap then head + 1 else 0
    ensures CountOf(Mask(head + 1, wrap), tail, wrap) == CountOf(head, tail, wrap) + 1
    ensures SlotsOf(tail, CountOf(head, tail, wrap) + 1, wrap) == SlotsOf(tail, CountOf(head, tail, wrap), wrap) + [head]
    ensures head !in SlotsOf(tail, CountOf(head, tail, wrap), wrap)
  {
    MaskRange(head + 1, wrap);
    var c := CountOf(head, tail, wrap);
    assert SlotsOf(tail, c + 1, wrap) == SlotsOf(tail, c, wrap) + [head];
  }

  /** Advancing tail by one slot drops the first slot. */
  lemma SlotsAdvanceTail(head: int, tail: int, wrap: int)
    requires 0 <= head <= wrap && 0 <= tail <= wrap && tail != head
    ensures 0 <= Mask(tail + 1, wrap) <= wrap
    ensures Mask(tail + 1, wrap) == if tail < wrap then tail + 1 else 0
    ensures CountOf(head, Mask(tail + 1, wrap), wrap) == CountOf(head, tail, wrap) - 1
    ensures SlotsOf(Mask(tail + 1, wrap), CountOf(head, tail, wrap) - 1, wrap) == SlotsOf(tail, CountOf(head, tail, wrap), wrap)[1..]
  {
    MaskRange(tail + 1, wrap);
    var c := CountOf(head, tail, wrap);
    assert SlotsOf(Mask(tail + 1, wrap), c - 1, wrap) == SlotsOf(tail, c, wrap)[1..];
  }

  /** Writing outside the slots leaves their contents alone. */
  lemma ContentsUpdate<T>(d: seq<T>, slots: seq<int>, k: int, x: T)
    requires forall i :: 0 <= i < |slots| ==> 0 <= slots[i] < |d|
    requires 0 <= k < |d| && k !in slots
    ensures ContentsOf(d[k := x], slots) == ContentsOf(d, slots)
  {
  }

  lemma ContentsSnoc<T>(d: seq<T>, slots: seq<int>, k: int)
    requires forall i :: 0 <= i < |slots| ==> 0 <= slots[i] < |d|
    requires 0 <= k < |d|
    ensures ContentsOf(d, slots + [k]) == ContentsOf(d, slots) + [d[k]]
  {
  }

  lemma ContentsTail<T>(d: seq<T>, slots: seq<int>)
    requires forall i :: 0 <= i < |slots| ==> 0 <= slots[i] < |d|
    requires |slots| > 0
    ensures ContentsOf(d, slots[1..]) == ContentsOf(d, slots)[1..]
  {
  }

  /** ringbuf_t: head, tail and wrap, and the typed data array. */
  class RingBuf<T(0)> {
    var head: int
    var tail: int
    var wrap: int
    var data: array<T>

    /** The fields stay slot indices of an array of wrap + 1 elements, and
        that size is a power of two, which makes `& wrap` a remainder. */
    ghost predicate Valid()
      reads this
    {
      0 <= wrap < 0x4000_0000 && IsPow2(wrap + 1) && data.Length == wrap + 1 &&
      0 <= head <= wrap && 0 <= tail <= wrap
    }

    /** rb_count: the number of items held; zero exactly when tail meets head. */
    function Count(): (n: int)
      reads this
      requires Valid()
      ensures 0 <= n <= wrap
      ensures n == 0 <==> tail == head
    {
      CountOf(head, tail, wrap)
    }

    /** rb_space: the room left; count and space add up to the capacity wrap. */
    function Space(): (n: int)
      reads this
      requires Valid()
      ensures 0 <= n <= wrap
      ensures Count() + n == wrap
      ensures n == 0 <==> Mask(head + 1, wrap) == tail
    {
      MaskRange(head + 1, wrap);
      wrap - Count()
    }

    /** The occupied slot indices, oldest first: tail, tail + 1, ... modulo size. */
    ghost function Slots(): (s: seq<int>)
      reads this
      requires Valid()
      ensures |s| == Count()
      ensures |s| > 0 ==> s[0] == tail
    {
      SlotsOf(tail, Count(), wrap)
    }

    /** The items held, oldest first. */
    ghost function Contents(): (c: seq<T>)
      reads this, data
      requires Valid()
      ensures |c| == Count()
    {
      ContentsOf(data[..], Slots())
    }

    /** rb_create(rb_ptr, size): an empty buffer over size fresh elements. */
    constructor Create(size: int)
      requires IsPow2(size) && size <= 0x4000_0000
      ensures Valid() && fresh(data) && data.Length == size
      ensures wrap == size - 1 && head == 0 && tail == 0
      ensures Count() == 0 && Contents() == []
    {
      wrap := size - 1;
      head := 0;
      tail := 0;
      data := new T[size];
    }

    /** A static initialiser `{0, 0, size - 1, buffer}`: an empty buffer whose
        data is the given, shared array. */
    constructor Over(buffer: array<T>)
      requires IsPow2(buffer.Length) && buffer.Length <= 0x4000_0000
      ensures Valid() && data == buffer
      ensures wrap == buffer.Length - 1 && head == 0 && tail == 0
      ensures Count() == 0
    {
      wrap := buffer.Length - 1;
      head := 0;
      tail := 0;
      data := buffer;
    }

    /** rb_clear: drop every item by moving tail to head. */
    method Clear()
      requires Valid()
      modifies this`tail
      ensures Valid() && tail == head && head == old(head)
      ensures Count() == 0 && Contents() == []
    {
      tail := head;
    }

    /** rb_push (__RB_PUSH): when there is space, store x at head and advance
        head; x becomes the newest item. Otherwise nothing changes. */
    method Push(x: T) returns (ok: bool)
      requires Valid()
      modifies this`head, data
      ensures Valid() && tail == old(tail)
      ensures ok <==> old(Count()) < wrap
      ensures ok ==> head == Mask(old(head) + 1, wrap) && data[..] == old(data[..])[old(head) := x]
      ensures ok ==> Count() == old(Count()) + 1 && Contents() == old(Contents()) + [x]
      ensures !ok ==> head == old(head) && data[..] == old(data[..]) && Count() == old(Count())
    {
      if Count() < wrap {
        SlotsAdvanceHead(head, tail, wrap);
        ContentsUpdate(data[..], Slots(), head, x);
        ContentsSnoc(data[..][head := x], Slots(), head);
        data[head] := x;
        head := Mask(head + 1, wrap);
        return true;
      } else {
        return false;
      }
    }

    /** rb_pop (__RB_POP): when not empty, hand out the item at tail, the
        oldest, and advance tail. Otherwise the output keeps its value prev. */
    method Pop(prev: T) returns (ok: bool, elem: T)
      requires Valid()
      modifies this`tail
      ensures Valid() && head == old(head)
      ensures ok <==> old(tail) != old(head)
      ensures ok ==> elem == old(Contents())[0] && elem == data[old(tail)]
      ensures ok ==> tail == Mask(old(tail) + 1, wrap) && Count() == old(Count()) - 1
      ensures ok ==> Contents() == old(Contents())[1..]
      ensures !ok ==> elem == prev && tail == old(tail) && Count() == old(Count())
    {
      var t := tail;
      if t != head {
        SlotsAdvanceTail(head, tail, wrap);
        ContentsTail(data[..], Slots());
        elem := data[t];
        tail := Mask(t + 1, wrap);
        return true, elem;
      } else {
        return false, prev;
      }
    }

    /** rb_acquire: when there is space, hand out the slot at head and advance
        head; the slot becomes the newest. Otherwise the output keeps prev. */
    method Acquire(prev: int) returns (ok: bool, index: int)
      requires Valid()
      modifies this`head
      ensures Valid() && tail == old(tail)
      ensures ok <==> old(Count()) < wrap
      ensures ok ==> index == old(head) && 0 <= index <= wrap && head == Mask(old(head) + 1, wrap)
      ensures ok ==> Count() == old(Count()) + 1 && Slots() == old(Slots()) + [index]
      ensures !ok ==> index == prev && head == old(head)
    {
      if Count() < wrap {
        SlotsAdvanceHead(head, tail, wrap);
        index := head;
        head := Mask(head + 1, wrap);
        return true, index;
      } else {
        return false, prev;
      }
    }

    /** rb_current: when not empty, the oldest slot, tail; nothing changes. */
    method Current(prev: int) returns (ok: bool, index: int)
      requires Valid()
      ensures ok <==> Count() > 0
      ensures ok ==> index == tail && index == Slots()[0]
      ensures !ok ==> index == prev
    {
      if Count() > 0 {
        return true, tail;
      } else {
        return false, prev;
      }
    }

    /** rb_release: when not empty, drop the oldest slot by advancing tail. */
    method Release() returns (ok: bool)
      requires Valid()
      modifies this`tail
      ensures Valid() && head == old(head)
      ensures ok <==> old(tail) != old(head)
      ensures ok ==> tail == Mask(old(tail) + 1, wrap) && Count() == old(Count()) - 1
      ensures ok ==> Slots() == old(Slots())[1..]
      ensures !ok ==> tail == old(tail)
    {
      var t := tail;
      if t != head {
        ghost var slots := Slots();
        SlotsAdvanceTail(head, tail, wrap);
        tail := Mask(t + 1, wrap);
        assert Valid();
        assert Slots() == slots[1..];
        return true;
      } else {
        return false;
      }
    }
  }

  lemma Pow2Eight()
    ensures IsPow2(8)
  {
    assert IsPow2(2);
    assert IsPow2(4);
  }

  /** The sanity checks of bench/ringbuf_tb.c on an 8-item int32_t buffer. */
  method SanityChecks() returns (rb: RingBuf<int>)
    ensures fresh(rb) && rb.Valid() && rb.Count() == 1 && rb.Contents() == [90210]
  {
    Pow2Eight();
    rb := new RingBuf<int>.Create(8);
    PushPopOne(rb);
    FillUp(rb);
    ClearCheck(rb);
  }

  /** An item pushed into an empty buffer is the only one that can be popped. */
  method PushPopOne(rb: RingBuf<int>)
    requires rb.Valid() && rb.wrap == 7 && rb.Count() == 0
    modifies rb`head, rb`tail, rb.data
    ensures rb.Valid() && rb.Count() == 0
  {
    var val := 0;
    var ok := rb.Push(666);
    ok, val := rb.Pop(val);
    assert ok && val == 666;
    ok, val := rb.Pop(val);
    assert !ok;
  }

  /** Of eight pushes into an empty 8-slot buffer seven fit; a further push
      fails, and succeeds again after one pop. */
  method FillUp(rb: RingBuf<int>)
    requires rb.Valid() && rb.wrap == 7 && rb.Count() == 0
    modifies rb`head, rb`tail, rb.data
    ensures rb.Valid() && rb.Count() == 7
  {
    var i := 0;
    var ok: bool;
    while i < 8
      invariant 0 <= i <= 8 && rb.Valid()
      invariant rb.Count() == if i < 7 then i else 7
    {
      ok := rb.Push(42069);
      i := i + 1;
    }
    ok := rb.Push(90210);
    assert !ok;
    var val := 0;
    ok, val := rb.Pop(val);
    assert ok;
    ok := rb.Push(90210);
    assert ok;
  }

  /** After rb_clear a pop fails and a push succeeds. */
  method ClearCheck(rb: RingBuf<int>)
    requires rb.Valid() && rb.wrap == 7
    modifies rb`head, rb`tail, rb.data
    ensures rb.Valid() && rb.Count() == 1 && rb.Contents() == [90210]
  {
    rb.Clear();
    var val := 0;
    var ok;
    ok, val := rb.Pop(val);
    assert !ok;
    ok := rb.Push(90210);
    assert ok;
  }

  /**
   * The random push/pop run of bench/ringbuf_tb.c, after its rb_clear:
   * coins[k] picks push or pop, values supplies what rand() would push. The
   * bench's running count tracks rb_count and stays within [0, 8).
   */
  method RandomPushPop(rb: RingBuf<int>, coins: seq<bool>, values: seq<int>) returns (count: int)
    requires rb.Valid() && rb.wrap == 7
    requires |values| == |coins|
    modifies rb`head, rb`tail, rb.data
    ensures rb.Valid() && count == rb.Count() && 0 <= count < 8
  {
    rb.Clear();
    count := 0;
    var val := 0;
    var k := 0;
    while k < |coins|
      invariant 0 <= k <= |coins|
      invariant rb.Valid() && rb.wrap == 7
      invariant count == rb.Count() && 0 <= count < 8
    {
      var ok: bool;
      if coins[k] {
        ok := rb.Push(values[k]);
        count := count + if ok then 1 else 0;
      } else {
        ok, val := rb.Pop(val);
        count := count - if ok then 1 else 0;
      }
      k := k + 1;
    }
  }
}
