/** The ring of input reports that both pointing devices keep for the host to poll: a power-of-two
    array with masked indices, where a full ring gives up its oldest report. */
module ReportRing {

  /** A first-in first-out queue of bounded capacity that drops the oldest element when full. */
  function Push<T>(q: seq<T>, x: T, capacity: nat): (r: seq<T>)
    requires |q| <= capacity && capacity > 0
    ensures |r| <= capacity
  {
    if |q| == capacity then q[1..] + [x] else q + [x]
  }

  function PushAll<T>(q: seq<T>, xs: seq<T>, capacity: nat): (r: seq<T>)
    requires |q| <= capacity && capacity > 0
    ensures |r| <= capacity
    decreases |xs|
  {
    if xs == [] then q else PushAll(Push(q, xs[0], capacity), xs[1..], capacity)
  }

  /** How many elements are dropped on the way. */
  function Excess<T>(q: seq<T>, xs: seq<T>, capacity: nat): nat {
    if |q| + |xs| <= capacity then 0 else |q| + |xs| - capacity
  }

  /** Whatever is pushed, exactly the youngest elements stay, in order. */
  lemma {:induction false} PushAllKeepsYoungest<T>(q: seq<T>, xs: seq<T>, capacity: nat)
    requires |q| <= capacity && capacity > 0
    ensures PushAll(q, xs, capacity) == (q + xs)[Excess(q, xs, capacity)..]
    ensures |PushAll(q, xs, capacity)| == if |q| + |xs| < capacity then |q| + |xs| else capacity
    decreases |xs|
  {
    if xs == [] {
      assert q + xs == q;
    } else {
      var q', xs' := Push(q, xs[0], capacity), xs[1..];
      PushAllKeepsYoungest(q', xs', capacity);
      hide Push, Excess;
      PushFirst(q, xs, capacity);
    }
  }

  lemma PushFirst<T>(q: seq<T>, xs: seq<T>, capacity: nat)
    requires |q| <= capacity && capacity > 0 && xs != []
    ensures var q', xs' := Push(q, xs[0], capacity), xs[1..];
            (q' + xs')[Excess(q', xs', capacity)..] == (q + xs)[Excess(q, xs, capacity)..]
  {
    var q', xs', all, e := Push(q, xs[0], capacity), xs[1..], q + xs, Excess(q, xs, capacity);
    if |q| == capacity {
      assert q' + xs' == all[1..];
      assert all[1..][e - 1..] == all[e..];
    } else {
      assert q' + xs' == all;
    }
  }

  /** The two depths in use. */
  predicate PowerOfTwo(depth: nat) {
    depth == 32 || depth == 64
  }

  /** Masking with depth - 1. */
  function Mask(x: int, depth: nat): int
    requires PowerOfTwo(depth)
  {
    x % depth
  }

  lemma MaskWraps(x: int, depth: nat)
    requires PowerOfTwo(depth) && 0 <= x + depth < 3 * depth
    ensures Mask(x, depth) == if x < 0 then x + depth else if x < depth then x else x - depth
  {
    if depth == 32 {
      assert x % 32 == if x < 0 then x + 32 else if x < 32 then x else x - 32;
    } else {
      assert x % 64 == if x < 0 then x + 64 else if x < 64 then x else x - 64;
    }
  }

  class Ring<T(0)> {
    const depth: nat
    const slots: array<T>
    var head: nat
    var tail: nat

    ghost predicate Valid()
      reads this
    {
      PowerOfTwo(depth) && slots.Length == depth && head < depth && tail < depth
    }

    /** The queued elements, oldest first. */
    ghost function Contents(): (q: seq<T>)
      requires Valid()
      reads this, slots
      ensures |q| <= depth - 1
    {
      if tail <= head then slots[tail..head] else slots[tail..] + slots[..head]
    }

    constructor (depth: nat)
      requires PowerOfTwo(depth)
      ensures Valid() && this.depth == depth && Contents() == [] && fresh(slots)
    {
      this.depth := depth;
      slots := new T[depth];
      head, tail := 0, 0;
    }

    method Count() returns (n: nat)
      requires Valid()
      ensures n == |Contents()|
    {
      hide Mask;
      MaskWraps(head - tail, depth);
      n := Mask(head - tail, depth);
    }

    method IsEmpty() returns (empty: bool)
      requires Valid()
      ensures empty <==> Contents() == []
    {
      empty := head == tail;
    }

    method Enqueue(x: T) returns (ghost dropped: seq<T>)
      requires Valid()
      modifies this`head, this`tail, slots
      ensures Valid()
      ensures Contents() == Push(old(Contents()), x, depth - 1)
      ensures dropped == if |old(Contents())| == depth - 1 then old(Contents())[..1] else []
    {
      hide Mask;
      dropped := [];
      var count := Count();
      if count == depth - 1 {
        dropped := Contents()[..1];
        DropOldest();
      }
      Append(x);
    }

    method Append(x: T)
      requires Valid() && |Contents()| < depth - 1
      modifies this`head, slots
      ensures Valid() && Contents() == old(Contents()) + [x]
    {
      hide Mask;
      MaskWraps(head + 1, depth);
      slots[head] := x;
      head := Mask(head + 1, depth);
    }

    method DropOldest()
      requires Valid() && Contents() != []
      modifies this`tail
      ensures Valid() && Contents() == old(Contents())[1..]
    {
      hide Mask;
      MaskWraps(tail + 1, depth);
      tail := Mask(tail + 1, depth);
    }

    method Dequeue() returns (x: T)
      requires Valid() && Contents() != []
      modifies this`tail
      ensures Valid() && x == old(Contents())[0] && Contents() == old(Contents())[1..]
    {
      x := slots[tail];
      DropOldest();
    }

    method Clear()
      requires Valid()
      modifies this`head, this`tail
      ensures Valid() && Contents() == []
    {
      head, tail := 0, 0;
    }
  }
}
