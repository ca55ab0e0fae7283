/**
 The ring-buffer queue. Its buffer, read from `head` around, is the queue's contents followed by
 empty slots; every operation is proved against that sequence.
 */
module RingQueue {
  import opened Arith
  import opened Bits

  const MIN_QUEUE_LEN := 16

  /** An `interface{}` value, possibly nil. */
  datatype Slot<+T> = Nil | Elem(value: T)

  ghost predicate IsCapacity(n: nat) {
    exists k: nat :: 4 <= k && n == Pow2(k)
  }

  /** The buffer read from `head` around. */
  function Around<T>(b: seq<Slot<T>>, head: nat): (r: seq<Slot<T>>)
    requires head <= |b|
    ensures |r| == |b|
  {
    b[head..] + b[..head]
  }

  function Wrap(x: nat, n: nat): (r: nat)
    requires n > 0
    ensures r < n
  {
    x % n
  }

  lemma CapacityMask(n: nat, x: nat)
    requires IsCapacity(n)
    ensures n >= 16 && And(x, n - 1) == Wrap(x, n)
  {
    var k: nat :| 4 <= k && n == Pow2(k);
    PowMonotone(4, k);
    assert Pow2(4) == 16;
    AndIsMod(x, k);
  }

  lemma CapacityDouble(n: nat)
    requires IsCapacity(n)
    ensures IsCapacity(2 * n) && n >= 16
    ensures n > 16 ==> IsCapacity(n / 2) && n % 4 == 0
  {
    var k: nat :| 4 <= k && n == Pow2(k);
    var half, quarter := Pow2(k - 1), Pow2(k - 2);
    assert Pow2(k + 1) == 2 * n && n == 2 * half && half == 2 * quarter && Pow2(4) == 16;
    hide Pow2;
    PowMonotone(4, k);
    if n > 16 {
      assert 4 <= k - 1 && n / 2 == half;
    }
  }

  lemma WrapOnce(x: nat, n: nat)
    requires 0 < n && x < 2 * n
    ensures Wrap(x, n) == if x < n then x else x - n
  {
    QuotientUnique(x, n, if x < n then 0 else 1, if x < n then x else x - n);
  }

  lemma AroundAt<T>(b: seq<Slot<T>>, head: nat, i: nat)
    requires head < |b| && i < |b|
    ensures Around(b, head)[i] == b[Wrap(head + i, |b|)]
  {
    WrapOnce(head + i, |b|);
  }

  /** Writing the slot `i` places after the head. */
  lemma AroundWrite<T>(b: seq<Slot<T>>, head: nat, i: nat, x: Slot<T>)
    requires head < |b| && i < |b|
    ensures var j := Wrap(head + i, |b|); Around(b[j := x], head) == Around(b, head)[i := x]
  {
    WrapOnce(head + i, |b|);
  }

  /** Moving the head one place on, with wrap-around, moves the first slot to the end. */
  lemma AroundAdvance<T>(b: seq<Slot<T>>, head: nat)
    requires head < |b|
    ensures var h := Wrap(head + 1, |b|); h < |b| && Around(b, h) == Around(b, head)[1..] + [b[head]]
  {
    WrapOnce(head + 1, |b|);
    if head + 1 < |b| {
      assert b[..head + 1] == b[..head] + [b[head]];
    } else {
      assert b == b[..head] + [b[head]];
    }
  }

  /** The occupied part of the buffer lies in one piece or wraps around its end. */
  lemma AroundPieces<T>(b: seq<Slot<T>>, head: nat, count: nat)
    requires head < |b| && 0 < count <= |b|
    ensures var tail := Wrap(head + count, |b|);
      && tail < |b|
      && Around(b, head)[..count] == if tail > head then b[head..tail] else b[head..] + b[..tail]
  {
    WrapOnce(head + count, |b|);
  }

  lemma AroundPacked<T>(b: seq<Slot<T>>, contents: seq<Slot<T>>)
    requires contents != [] && |b| == 2 * |contents| && contents <= b
    requires forall i :: |contents| <= i < |b| ==> b[i] == Nil
    ensures Around(b, 0)[..|contents|] == contents
    ensures forall i :: |contents| <= i < |b| ==> Around(b, 0)[i] == Nil
    ensures Wrap(0 + |contents|, |b|) == |contents|
  {
    WrapOnce(|contents|, |b|);
  }

  /** The built-in `copy(dst[at:], src)`. */
  method CopyInto<T>(dst: array<Slot<T>>, at: nat, src: seq<Slot<T>>) returns (n: nat)
    requires at <= dst.Length
    modifies dst
    ensures n == (if |src| <= dst.Length - at then |src| else dst.Length - at)
    ensures dst[..at] == old(dst[..at]) && dst[at..at + n] == src[..n]
    ensures forall i :: at + n <= i < dst.Length ==> dst[i] == old(dst[i])
  {
    n := if |src| <= dst.Length - at then |src| else dst.Length - at;
    forall i | 0 <= i < n {
      dst[at + i] := src[i];
    }
  }

  lemma TwoPieces<T>(s: seq<T>, n: nat, count: nat)
    requires n <= count <= |s|
    ensures s[..count] == s[..n] + s[n..count]
  {
  }

  /** A buffer of twice `count` slots that starts with the occupied part of `b`. */
  method Packed<T>(b: array<Slot<T>>, head: nat, tail: nat, count: nat) returns (newBuf: array<Slot<T>>)
    requires head < b.Length && 0 < count <= b.Length && tail == Wrap(head + count, b.Length)
    ensures fresh(newBuf) && newBuf.Length == 2 * count
    ensures Around(b[..], head)[..count] <= newBuf[..]
    ensures forall i :: count <= i < newBuf.Length ==> newBuf[i] == Nil
  {
    hide Around, Wrap;
    AroundPieces(b[..], head, count);
    newBuf := new Slot<T>[2 * count](_ => Nil);
    if tail > head {
      var _ := CopyInto(newBuf, 0, b[head..tail]);
      assert newBuf[..count] == b[head..tail];
    } else {
      var n := CopyInto(newBuf, 0, b[head..]);
      var _ := CopyInto(newBuf, n, b[..tail]);
      TwoPieces(newBuf[..], n, count);
    }
  }

  /** The invariant of the buffer and its indices. */
  ghost predicate RingShape<T>(b: seq<Slot<T>>, head: nat, tail: nat, count: nat) {
    && IsCapacity(|b|)
    && head < |b| && count <= |b| && tail == Wrap(head + count, |b|)
    && forall i :: count <= i < |b| ==> Around(b, head)[i] == Nil
  }

  /** The queue held by a buffer. */
  ghost function RingContents<T>(b: seq<Slot<T>>, head: nat, count: nat): seq<Slot<T>>
    requires head <= |b| && count <= |b|
  {
    Around(b, head)[..count]
  }

  lemma RingAdd<T>(b: seq<Slot<T>>, head: nat, tail: nat, count: nat, x: Slot<T>)
    requires RingShape(b, head, tail, count) && count < |b|
    ensures tail < |b|
    ensures RingShape(b[tail := x], head, And(tail + 1, |b| - 1), count + 1)
    ensures RingContents(b[tail := x], head, count + 1) == RingContents(b, head, count) + [x]
  {
    hide IsCapacity, And, Around, Wrap;
    CapacityMask(|b|, tail + 1);
    AroundWrite(b, head, count, x);
    AdvanceTail(head, count, |b|);
    assert Around(b[tail := x], head) == Around(b, head)[count := x];
  }

  lemma RingPop<T>(b: seq<Slot<T>>, head: nat, tail: nat, count: nat)
    requires RingShape(b, head, tail, count) && count > 0
    ensures RingShape(b[head := Nil], And(head + 1, |b| - 1), tail, count - 1)
    ensures RingContents(b, head, count)
         == [b[head]] + RingContents(b[head := Nil], And(head + 1, |b| - 1), count - 1)
  {
    hide IsCapacity, And, Around, Wrap;
    CapacityMask(|b|, head + 1);
    AroundAdvance(b[head := Nil], head);
    AroundRest(b, head);
    AdvanceHead(head, count, |b|);
    ShiftOut(Around(b, head), Around(b[head := Nil], And(head + 1, |b| - 1)), count);
  }

  /** The slot `i` places on holds element `i`. */
  lemma RingAt<T>(b: seq<Slot<T>>, head: nat, tail: nat, count: nat, i: nat)
    requires RingShape(b, head, tail, count) && i < count
    ensures And(head + i, |b| - 1) < |b| && head <= |b| && count <= |b| && |RingContents(b, head, count)| == count
    ensures b[And(head + i, |b| - 1)] == RingContents(b, head, count)[i]
  {
    hide IsCapacity, And, Around, Wrap;
    CapacityMask(|b|, head + i);
    AroundAt(b, head, i);
  }

  lemma ShiftOut<T>(was: seq<Slot<T>>, now: seq<Slot<T>>, count: nat)
    requires 0 < count <= |was| && now == was[1..] + [Nil]
    requires forall i :: count <= i < |was| ==> was[i] == Nil
    ensures forall i :: count - 1 <= i < |now| ==> now[i] == Nil
    ensures was[..count] == [was[0]] + now[..count - 1]
  {
  }

  lemma AroundRest<T>(b: seq<Slot<T>>, head: nat)
    requires head < |b|
    ensures Around(b, head)[0] == b[head] && Around(b[head := Nil], head)[1..] == Around(b, head)[1..]
  {
  }

  lemma AdvanceTail(head: nat, count: nat, n: nat)
    requires head < n && count < n
    ensures Wrap(Wrap(head + count, n) + 1, n) == Wrap(head + count + 1, n)
  {
    hide Wrap;
    WrapOnce(head + count, n);
    WrapOnce(Wrap(head + count, n) + 1, n);
    WrapOnce(head + count + 1, n);
  }

  lemma AdvanceHead(head: nat, count: nat, n: nat)
    requires head < n && 0 < count <= n
    ensures Wrap(head + count, n) == Wrap(Wrap(head + 1, n) + count - 1, n)
  {
    hide Wrap;
    WrapOnce(head + 1, n);
    WrapOnce(head + count, n);
    WrapOnce(Wrap(head + 1, n) + count - 1, n);
  }

  /** Work saved up for the next resize: 2 per element above half full, 1 per element below. */
  function Potential(capacity: nat, count: nat): nat {
    if 2 * count >= capacity then 2 * count - capacity
    else if capacity > MIN_QUEUE_LEN then capacity / 2 - count
    else 0
  }

  /** Removing one element from a buffer more than a quarter full leaves it so, or exactly a quarter full. */
  lemma QuarterFull(n: nat, count: nat)
    requires IsCapacity(n) && count > 0 && (n == MIN_QUEUE_LEN || 4 * count > n)
    ensures n == MIN_QUEUE_LEN || (n > MIN_QUEUE_LEN && 4 * (count - 1) >= n)
    ensures n > MIN_QUEUE_LEN && 4 * (count - 1) == n ==> IsCapacity(2 * (count - 1))
  {
    CapacityDouble(n);
  }

  lemma PotentialAdd(n: nat, count: nat)
    ensures Potential(n, count + 1) <= Potential(n, count) + 2
  {
  }

  lemma PotentialPop(n: nat, count: nat)
    requires count > 0
    ensures Potential(n, count - 1) <= Potential(n, count) + 1
  {
  }

  /** Both resizes happen with enough saved up to pay for the copy, and leave the buffer half full. */
  lemma PotentialResize(n: nat, count: nat)
    requires count == n || (n > MIN_QUEUE_LEN && 4 * count == n)
    ensures count + Potential(2 * count, count) <= Potential(n, count)
  {
  }

  class Queue<T> {
    var buf: array<Slot<T>>
    var head: nat
    var tail: nat
    var count: nat

    // Counters of completed operations and of elements copied by resizing.
    ghost var adds: nat
    ghost var pops: nat
    ghost var copied: nat

    ghost predicate Shape()
      reads this, buf
    {
      RingShape(buf[..], head, tail, count)
    }

    ghost predicate Valid()
      reads this, buf
    {
      && Shape()
      && (buf.Length == MIN_QUEUE_LEN || 4 * count > buf.Length)
      && copied + Potential(buf.Length, count) <= 2 * adds + pops
    }

    ghost function Contents(): seq<Slot<T>>
      requires Shape()
      reads this, buf
    {
      RingContents(buf[..], head, count)
    }

    constructor ()
      ensures Valid() && fresh(buf) && buf.Length == 16
      ensures Contents() == [] && adds == pops == copied == 0
    {
      buf := new Slot<T>[MIN_QUEUE_LEN](_ => Nil);
      head, tail, count := 0, 0, 0;
      adds, pops, copied := 0, 0, 0;
      new;
      assert Pow2(4) == 16;
    }

    method Length() returns (n: nat)
      requires Valid()
      ensures n == |Contents()|
    {
      n := count;
    }

    /** Moves the contents to the front of a fresh buffer twice their size. */
    method Resize()
      requires Shape() && IsCapacity(2 * count)
      modifies this
      ensures Shape() && fresh(buf) && buf.Length == 2 * count
      ensures Contents() == old(Contents()) && count == old(count)
      ensures copied == old(copied) + count && adds == old(adds) && pops == old(pops)
    {
      assert count > 0;
      ghost var contents := Contents();
      hide IsCapacity, Around, Potential, Wrap;
      var newBuf := Packed(buf, head, tail, count);
      AroundPacked(newBuf[..], contents);
      head := 0;
      tail := count;
      buf := newBuf;
      copied := copied + count;
    }

    method Add(elem: Slot<T>)
      requires Valid()
      modifies this, buf
      ensures Valid() && (buf == old(buf) || fresh(buf))
      ensures Contents() == old(Contents()) + [elem]
      ensures buf.Length == if |old(Contents())| == old(buf.Length) then 2 * old(buf.Length) else old(buf.Length)
      ensures adds == old(adds) + 1 && pops == old(pops)
    {
      assert IsCapacity(buf.Length) && |Contents()| == count;
      hide IsCapacity, And, RingShape, RingContents, Potential;
      CapacityDouble(buf.Length);
      if count == buf.Length {
        PotentialResize(buf.Length, count);
        Resize();
      }
      PotentialAdd(buf.Length, count);
      PutTail(elem);
    }

    /** Fills the tail slot and moves the tail on. */
    method PutTail(elem: Slot<T>)
      requires Shape() && count < buf.Length
      modifies this`tail, this`count, this`adds, buf
      ensures Shape() && Contents() == old(Contents()) + [elem]
      ensures count == old(count) + 1 && adds == old(adds) + 1
    {
      ghost var b, added := buf[..], buf[..][tail := elem];
      RingAdd(b, head, tail, count, elem);
      hide RingShape, RingContents, And;
      var next := And(tail + 1, buf.Length - 1);
      buf[tail] := elem;
      assert buf[..] == added;
      tail := next;
      count := count + 1;
      adds := adds + 1;
    }

    method Peek() returns (r: Slot<T>)
      requires Valid()
      ensures r == if Contents() == [] then Nil else Contents()[0]
    {
      if count == 0 {
        return Nil;
      }
      return buf[head];
    }

    /** `q.buf[(q.head+i)&(len(q.buf)-1)]`. */
    method At(i: nat) returns (r: Slot<T>)
      requires Shape() && i < count
      ensures |Contents()| == count && r == Contents()[i]
    {
      RingAt(buf[..], head, tail, count, i);
      hide RingShape, RingContents, And;
      r := buf[And(head + i, buf.Length - 1)];
    }

    /** Negative indices count from the end; an index out of range reads as nil. */
    method Get(index: int) returns (r: Slot<T>)
      requires Valid()
      ensures r == var s := Contents();
        if 0 <= index < |s| then s[index] else if -|s| <= index < 0 then s[|s| + index] else Nil
    {
      assert |Contents()| == count;
      hide RingShape, RingContents, Potential;
      var i := index;
      if i < 0 {
        i := i + count;
      }
      if i < 0 || i >= count {
        return Nil;
      }
      r := At(i);
    }

    /** Empties the head slot and moves the head on. */
    method TakeHead() returns (r: Slot<T>)
      requires Shape() && count > 0
      modifies this`head, this`count, this`pops, buf
      ensures Shape() && old(Contents()) == [r] + Contents()
      ensures count == old(count) - 1 && pops == old(pops) + 1
    {
      ghost var b, rest := buf[..], buf[..][head := Nil];
      RingPop(b, head, tail, count);
      hide RingShape, RingContents, And;
      var next := And(head + 1, buf.Length - 1);
      r := buf[head];
      buf[head] := Nil;
      assert buf[..] == rest;
      head := next;
      count := count - 1;
      pops := pops + 1;
    }

    method Pop() returns (r: Slot<T>)
      requires Valid()
      modifies this, buf
      ensures Valid() && (buf == old(buf) || fresh(buf))
      ensures old(Contents()) == [] ==> r == Nil && Contents() == [] && pops == old(pops)
      ensures old(Contents()) != [] ==> old(Contents()) == [r] + Contents() && pops == old(pops) + 1
      ensures old(Contents()) != [] ==>
        buf.Length ==
          if old(buf.Length) > 16 && 4 * (|old(Contents())| - 1) == old(buf.Length) then old(buf.Length) / 2
          else old(buf.Length)
      ensures adds == old(adds)
    {
      assert |Contents()| == count && IsCapacity(buf.Length);
      hide IsCapacity, RingShape, RingContents, Potential;
      if count == 0 {
        return Nil;
      }
      QuarterFull(buf.Length, count);
      PotentialPop(buf.Length, count);
      r := TakeHead();
      if buf.Length > MIN_QUEUE_LEN && 4 * count == buf.Length {
        PotentialResize(buf.Length, count);
        Resize();
      }
    }
  }

  /**
   In every valid queue the capacity is a power of two of at least 16, more than a quarter of it is in use unless it
   is 16, the elements lie from the head on around the end, all other slots are nil, and copies are paid for.
   */
  lemma ValidMeans<T>(q: Queue<T>, i: nat)
    requires q.Valid() && i < q.buf.Length
    ensures exists k: nat :: 4 <= k && q.buf.Length == Pow2(k)
    ensures q.buf.Length == 16 || 4 * |q.Contents()| > q.buf.Length
    ensures q.head < q.buf.Length && q.tail == (q.head + |q.Contents()|) % q.buf.Length
    ensures |q.Contents()| <= q.buf.Length && q.count == |q.Contents()|
    ensures q.buf[(q.head + i) % q.buf.Length] == if i < |q.Contents()| then q.Contents()[i] else Nil
    ensures q.copied <= 2 * q.adds + q.pops
  {
    AroundAt(q.buf[..], q.head, i);
    hide Pow2, Around;
  }

  // ---------------------------------------------------------------- whole runs

  datatype Op<+T> = OpAdd(elem: Slot<T>) | OpPop | OpPeek | OpGet(index: int) | OpLength
  datatype Answer<+T> = Done | Value(slot: Slot<T>) | Size(n: nat)

  /** What one operation does to, and reads from, a plain sequence. */
  function Apply<T>(s: seq<Slot<T>>, op: Op<T>): (seq<Slot<T>>, Answer<T>) {
    match op
    case OpAdd(x) => (s + [x], Done)
    case OpPop => if s == [] then (s, Value(Nil)) else (s[1..], Value(s[0]))
    case OpPeek => (s, Value(if s == [] then Nil else s[0]))
    case OpGet(i) =>
      (s, Value(if 0 <= i < |s| then s[i] else if -|s| <= i < 0 then s[|s| + i] else Nil))
    case OpLength => (s, Size(|s|))
  }

  /** On a plain sequence: append, remove the front, look at the front or at an index from either end, length. */
  lemma ApplyMeans<T>(s: seq<Slot<T>>, x: Slot<T>, i: int)
    ensures Apply(s, OpAdd(x)) == (s + [x], Done)
    ensures Apply([x] + s, OpPop) == (s, Value(x)) && Apply<T>([], OpPop) == ([], Value(Nil))
    ensures Apply([x] + s, OpPeek) == ([x] + s, Value(x)) && Apply<T>([], OpPeek) == ([], Value(Nil))
    ensures 0 <= i < |s| ==> Apply(s, OpGet(i)) == (s, Value(s[i])) && Apply(s, OpGet(i - |s|)) == (s, Value(s[i]))
    ensures i < -|s| || i >= |s| ==> Apply(s, OpGet(i)) == (s, Value(Nil))
    ensures Apply(s, OpLength) == (s, Size(|s|))
  {
    assert ([x] + s)[1..] == s;
  }

  function ApplyAll<T>(ops: seq<Op<T>>): (seq<Slot<T>>, seq<Answer<T>>) {
    if ops == [] then ([], [])
    else
      var (s, answers) := ApplyAll(ops[..|ops| - 1]);
      var (s', a) := Apply(s, ops[|ops| - 1]);
      (s', answers + [a])
  }

  function Count<T>(ops: seq<Op<T>>, p: Op<T> -> bool): nat {
    if ops == [] then 0
    else Count(ops[..|ops| - 1], p) + if p(ops[|ops| - 1]) then 1 else 0
  }

  /** A run begins with the empty sequence and takes its operations one by one, collecting the answers. */
  lemma ApplyMore<T>(ops: seq<Op<T>>, op: Op<T>, p: Op<T> -> bool)
    ensures ApplyAll<T>([]) == ([], []) && Count([], p) == 0
    ensures var (s, answers) := ApplyAll(ops);
      ApplyAll(ops + [op]) == (Apply(s, op).0, answers + [Apply(s, op).1])
    ensures Count(ops + [op], p) == Count(ops, p) + if p(op) then 1 else 0
  {
    assert (ops + [op])[..|ops|] == ops;
  }

  method Step<T>(q: Queue<T>, op: Op<T>) returns (a: Answer<T>)
    requires q.Valid()
    modifies q, q.buf
    ensures q.Valid() && (q.buf == old(q.buf) || fresh(q.buf))
    ensures (q.Contents(), a) == Apply(old(q.Contents()), op)
    ensures q.adds == old(q.adds) + (if op.OpAdd? then 1 else 0)
    ensures q.pops <= old(q.pops) + (if op.OpPop? then 1 else 0)
  {
    match op
    case OpAdd(x) =>
      q.Add(x);
      a := Done;
    case OpPop =>
      var r := q.Pop();
      a := Value(r);
    case OpPeek =>
      var r := q.Peek();
      a := Value(r);
    case OpGet(i) =>
      var r := q.Get(i);
      a := Value(r);
    case OpLength =>
      var n := q.Length();
      a := Size(n);
  }

  /** Any run from a new queue answers as the plain sequence does, at an amortised constant copying cost. */
  method Run<T>(ops: seq<Op<T>>) returns (answers: seq<Answer<T>>, ghost copied: nat)
    ensures answers == ApplyAll(ops).1
    ensures copied <= 2 * Count(ops, (op: Op<T>) => op.OpAdd?) + Count(ops, (op: Op<T>) => op.OpPop?)
  {
    var q := new Queue<T>();
    answers := [];
    for k := 0 to |ops|
      invariant q.Valid() && fresh(q) && fresh(q.buf)
      invariant (q.Contents(), answers) == ApplyAll(ops[..k])
      invariant q.adds == Count(ops[..k], (op: Op<T>) => op.OpAdd?)
      invariant q.pops <= Count(ops[..k], (op: Op<T>) => op.OpPop?)
    {
      assert ops[..k + 1][..k] == ops[..k];
      var a := Step(q, ops[k]);
      answers := answers + [a];
    }
    assert ops[..|ops|] == ops;
    copied := q.copied;
  }
}
