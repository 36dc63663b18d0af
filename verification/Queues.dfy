/** The ring buffer behind every worker (f1g_queue.c): a fixed array of blocks between two
    cursors.  `Ring` is its state as a value, the `Ring...` functions are its operations, and
    the laws are about those; class `Queue` is the object whose methods update the fields. */
module Queues {
  import opened Common

  /** sizeof(elem_t): the status word and the length word in front of each block's data. */
  const HEADER_SIZE := 8
  const IN_USE := 1

  datatype Block = Block(status: int, dataLen: int, data: seq<byte>)

  datatype Ring = Ring(front: nat, tail: nat, blocks: seq<Block>)

  // ---------------------------------------------------------------- cursor arithmetic

  /** The position after `i` in a ring of `n` blocks. */
  function Next(i: nat, n: nat): (r: nat)
    requires i < n
    ensures r < n
  {
    if i + 1 < n then i + 1 else 0
  }

  /** The code's way of computing it. */
  lemma NextIsModulo(i: nat, n: nat)
    requires i < n
    ensures (i + 1) % n == Next(i, n)
  {
    if i + 1 == n {
      assert (i + 1) % n == 0;
    }
  }

  /** How many positions lie from `front` up to, not including, `tail`. */
  function Distance(front: nat, tail: nat, n: nat): (r: nat)
    requires front < n && tail < n
    ensures r < n
  {
    if front <= tail then tail - front else tail + n - front
  }

  /** The position `k` steps after `front`. */
  function Position(front: nat, k: nat, n: nat): (r: nat)
    requires front < n && k < n
    ensures r < n
  {
    if front + k < n then front + k else front + k - n
  }

  /** Advancing `tail` lengthens the live stretch by one, up to n - 1. */
  lemma AdvanceTail(front: nat, tail: nat, n: nat)
    requires front < n && tail < n
    ensures Next(tail, n) == front <==> Distance(front, tail, n) == n - 1
    ensures Next(tail, n) != front ==> Distance(front, Next(tail, n), n) == Distance(front, tail, n) + 1
    ensures Position(front, Distance(front, tail, n), n) == tail
    ensures forall k: nat | k < Distance(front, tail, n) :: Position(front, k, n) != tail
  {
  }

  /** Advancing `front` drops the first live position and keeps the others in order. */
  lemma AdvanceFront(front: nat, tail: nat, n: nat)
    requires front < n && tail < n && front != tail
    ensures Distance(front, tail, n) > 0
    ensures Distance(Next(front, n), tail, n) == Distance(front, tail, n) - 1
    ensures forall k: nat | k < Distance(front, tail, n) - 1 ::
        Position(Next(front, n), k, n) == Position(front, k + 1, n)
    ensures forall k: nat | k < Distance(front, tail, n) - 1 :: Position(Next(front, n), k, n) != front
  {
  }

  lemma SameElements<T>(a: seq<T>, b: seq<T>)
    requires |a| == |b| && forall k: nat | k < |a| :: a[k] == b[k]
    ensures a == b
  {
  }

  // ---------------------------------------------------------------- the ring as a value

  ghost predicate WellFormed(r: Ring, capacity: nat) {
    && r.front < |r.blocks|
    && r.tail < |r.blocks|
    && (forall k | 0 <= k < |r.blocks| :: |r.blocks[k].data| == capacity)
    && (forall k: nat | k < Distance(r.front, r.tail, |r.blocks|) ::
          0 <= r.blocks[Position(r.front, k, |r.blocks|)].dataLen <= capacity)
  }

  /** What a reader of a live block sees: its first `dataLen` data bytes. */
  ghost function Payload(b: Block): seq<byte>
    requires 0 <= b.dataLen <= |b.data|
  {
    b.data[..b.dataLen]
  }

  /** The live payloads, oldest first. */
  ghost function Live(r: Ring, capacity: nat): (s: seq<seq<byte>>)
    requires WellFormed(r, capacity)
    ensures |s| == Distance(r.front, r.tail, |r.blocks|)
  {
    seq(Distance(r.front, r.tail, |r.blocks|),
        (k: nat) requires k < Distance(r.front, r.tail, |r.blocks|) =>
          Payload(r.blocks[Position(r.front, k, |r.blocks|)]))
  }

  /** memcpy of `bytes` to the start of a block's data. */
  function Overlay(data: seq<byte>, bytes: seq<byte>): (r: seq<byte>)
    requires |bytes| <= |data|
    ensures |r| == |data|
  {
    bytes + data[|bytes|..]
  }

  function RingFill(r: Ring, bytes: seq<byte>): Ring
    requires r.tail < |r.blocks| && |bytes| <= |r.blocks[r.tail].data|
  {
    var b := r.blocks[r.tail];
    r.(blocks := r.blocks[r.tail := b.(dataLen := |bytes|, data := Overlay(b.data, bytes))])
  }

  predicate RingFull(r: Ring)
    requires r.tail < |r.blocks|
  {
    r.front == Next(r.tail, |r.blocks|)
  }

  function RingMoveNext(r: Ring): Ring
    requires r.tail < |r.blocks|
  {
    if RingFull(r) then r else r.(tail := Next(r.tail, |r.blocks|))
  }

  function RingAdd(r: Ring, bytes: seq<byte>): Ring
    requires r.tail < |r.blocks| && |bytes| <= |r.blocks[r.tail].data|
  {
    if RingFull(r) then r
    else
      var b := Block(IN_USE, |bytes|, Overlay(r.blocks[r.tail].data, bytes));
      Ring(r.front, Next(r.tail, |r.blocks|), r.blocks[r.tail := b])
  }

  function RingPop(r: Ring): Ring
    requires r.front < |r.blocks|
  {
    if r.front == r.tail then r
    else Ring(Next(r.front, |r.blocks|), r.tail,
              r.blocks[r.front := r.blocks[r.front].(status := 0, dataLen := 0)])
  }

  // ---------------------------------------------------------------- the bounded FIFO

  datatype Op = Add(bytes: seq<byte>) | FillThenMove(fill: seq<byte>) | Pop

  predicate Fits(op: Op, capacity: nat) {
    match op
    case Add(bytes) => |bytes| <= capacity
    case FillThenMove(bytes) => |bytes| <= capacity
    case Pop => true
  }

  datatype Fifo = Fifo(items: seq<seq<byte>>, bound: int)

  function FifoPut(s: seq<seq<byte>>, bound: int, x: seq<byte>): seq<seq<byte>> {
    if |s| < bound then s + [x] else s
  }

  function FifoStep(s: seq<seq<byte>>, bound: int, op: Op): seq<seq<byte>> {
    match op
    case Add(bytes) => FifoPut(s, bound, bytes)
    case FillThenMove(bytes) => FifoPut(s, bound, bytes)
    case Pop => if s == [] then [] else s[1..]
  }

  function FifoRun(f: Fifo, ops: seq<Op>): Fifo
    decreases |ops|
  {
    if ops == [] then f else FifoRun(f.(items := FifoStep(f.items, f.bound, ops[0])), ops[1..])
  }

  /** The FIFO that a ring stands for: it holds at most n - 1 payloads. */
  ghost function View(r: Ring, capacity: nat): Fifo
    requires WellFormed(r, capacity)
  {
    Fifo(Live(r, capacity), |r.blocks| - 1)
  }

  ghost function RingStep(r: Ring, capacity: nat, op: Op): Ring
    requires WellFormed(r, capacity) && Fits(op, capacity)
  {
    match op
    case Add(bytes) => RingAdd(r, bytes)
    case FillThenMove(bytes) => RingMoveNext(RingFill(r, bytes))
    case Pop => RingPop(r)
  }

  /** Filling the free block is invisible to readers, full ring or not. */
  lemma FillIsInvisible(r: Ring, capacity: nat, bytes: seq<byte>)
    requires WellFormed(r, capacity) && |bytes| <= capacity
    ensures WellFormed(RingFill(r, bytes), capacity)
    ensures Live(RingFill(r, bytes), capacity) == Live(r, capacity)
  {
    AdvanceTail(r.front, r.tail, |r.blocks|);
  }

  lemma MoveKeepsWellFormed(r: Ring, capacity: nat)
    requires WellFormed(r, capacity)
    requires 0 <= r.blocks[r.tail].dataLen <= capacity
    ensures WellFormed(RingMoveNext(r), capacity)
  {
    AdvanceTail(r.front, r.tail, |r.blocks|);
  }

  /** Advancing the tail publishes exactly the block that was filled. */
  lemma MovePublishes(r: Ring, capacity: nat)
    requires WellFormed(r, capacity)
    requires 0 <= r.blocks[r.tail].dataLen <= capacity
    ensures WellFormed(RingMoveNext(r), capacity)
    ensures Live(RingMoveNext(r), capacity) == FifoPut(Live(r, capacity), |r.blocks| - 1, Payload(r.blocks[r.tail]))
  {
    MoveKeepsWellFormed(r, capacity);
    if !RingFull(r) {
      var m, live, x := RingMoveNext(r), Live(r, capacity), Payload(r.blocks[r.tail]);
      forall k: nat | k <= |live|
        ensures |Live(m, capacity)| == |live| + 1
        ensures Live(m, capacity)[k] == (live + [x])[k]
      {
        AdvanceTail(r.front, r.tail, |r.blocks|);
      }
      SameElements(Live(m, capacity), live + [x]);
    }
    AdvanceTail(r.front, r.tail, |r.blocks|);
  }

  lemma PopDropsOldest(r: Ring, capacity: nat)
    requires WellFormed(r, capacity)
    ensures WellFormed(RingPop(r), capacity)
    ensures Live(RingPop(r), capacity) == FifoStep(Live(r, capacity), |r.blocks| - 1, Pop)
  {
    if r.front != r.tail {
      var n := |r.blocks|;
      AdvanceFront(r.front, r.tail, n);
      var p := RingPop(r);
      assert forall k: nat | k < Distance(p.front, p.tail, n) ::
          p.blocks[Position(p.front, k, n)] == r.blocks[Position(r.front, k + 1, n)];
    }
  }

  /** One step of the ring is one step of a FIFO that holds at most n - 1 payloads. */
  lemma StepRefinesFifo(r: Ring, capacity: nat, op: Op)
    requires WellFormed(r, capacity) && Fits(op, capacity)
    ensures WellFormed(RingStep(r, capacity, op), capacity)
    ensures View(RingStep(r, capacity, op), capacity) ==
            View(r, capacity).(items := FifoStep(Live(r, capacity), |r.blocks| - 1, op))
  {
    match op
    case Pop => PopDropsOldest(r, capacity);
    case FillThenMove(bytes) =>
      FillIsInvisible(r, capacity, bytes);
      MovePublishes(RingFill(r, bytes), capacity);
    case Add(bytes) =>
      AddIsFillThenMove(r, capacity, bytes);
  }

  /** que_obj_add has the same effect on the contents as filling the free block and then moving
      the tail, including when the ring is full. */
  lemma AddIsFillThenMove(r: Ring, capacity: nat, bytes: seq<byte>)
    requires WellFormed(r, capacity) && |bytes| <= capacity
    ensures WellFormed(RingAdd(r, bytes), capacity)
    ensures WellFormed(RingMoveNext(RingFill(r, bytes)), capacity)
    ensures Live(RingAdd(r, bytes), capacity) == Live(RingMoveNext(RingFill(r, bytes)), capacity)
    ensures Live(RingAdd(r, bytes), capacity) == FifoPut(Live(r, capacity), |r.blocks| - 1, bytes)
  {
    FillIsInvisible(r, capacity, bytes);
    MovePublishes(RingFill(r, bytes), capacity);
    AdvanceTail(r.front, r.tail, |r.blocks|);
    if !RingFull(r) {
      var a, m := RingAdd(r, bytes), RingMoveNext(RingFill(r, bytes));
      assert forall k | 0 <= k < |r.blocks| :: a.blocks[k].dataLen == m.blocks[k].dataLen;
      assert forall k | 0 <= k < |r.blocks| :: a.blocks[k].data == m.blocks[k].data;
    }
  }

  ghost predicate AllFit(ops: seq<Op>, capacity: nat) {
    forall op | op in ops :: Fits(op, capacity)
  }

  ghost function RingRun(r: Ring, capacity: nat, ops: seq<Op>): Ring
    requires WellFormed(r, capacity) && AllFit(ops, capacity)
    decreases |ops|
  {
    if ops == [] then r
    else
      StepRefinesFifo(r, capacity, ops[0]);
      RingRun(RingStep(r, capacity, ops[0]), capacity, ops[1..])
  }

  /** Over any operation sequence the ring is a FIFO of capacity n - 1. */
  lemma {:induction false} RunRefinesFifo(r: Ring, capacity: nat, ops: seq<Op>)
    requires WellFormed(r, capacity) && AllFit(ops, capacity)
    ensures WellFormed(RingRun(r, capacity, ops), capacity)
    ensures View(RingRun(r, capacity, ops), capacity) == FifoRun(View(r, capacity), ops)
    decreases |ops|
  {
    if ops != [] {
      StepRefinesFifo(r, capacity, ops[0]);
      RunRefinesFifo(RingStep(r, capacity, ops[0]), capacity, ops[1..]);
    }
  }

  // ---------------------------------------------------------------- the queue object

  class Queue {
    var front: nat
    var tail: nat
    const blkSize: nat
    const blkNum: nat
    const buffer: array<Block>

    ghost const capacity := blkSize - HEADER_SIZE

    ghost predicate Valid()
      reads this, buffer
    {
      && HEADER_SIZE <= blkSize
      && buffer.Length == blkNum
      && WellFormed(State(), capacity)
    }

    ghost function State(): Ring
      reads this, buffer
    {
      Ring(front, tail, buffer[..])
    }

    /** The live payloads, oldest first. */
    ghost function Contents(): seq<seq<byte>>
      requires Valid()
      reads this, buffer
    {
      Live(State(), capacity)
    }

    /** que_obj_create; the memory that malloc returns is `garbage`. */
    constructor (blkSize: nat, blkNum: nat, garbage: Block)
      requires blkNum > 0 && |garbage.data| == blkSize
      ensures Valid() && fresh(buffer)
      ensures this.blkSize == blkSize + 8 && this.blkNum == blkNum
      ensures Contents() == []
    {
      this.blkSize := blkSize + HEADER_SIZE;
      this.blkNum := blkNum;
      front, tail := 0, 0;
      buffer := new Block[blkNum](_ => garbage);
    }

    /** que_obj_empty */
    predicate Empty()
      requires Valid()
      reads this, buffer
      ensures Empty() <==> Contents() == []
    {
      front == tail
    }

    /** que_obj_full */
    predicate Full()
      requires Valid()
      reads this, buffer
      ensures Full() <==> |Contents()| == blkNum - 1
    {
      AdvanceTail(front, tail, blkNum);
      NextIsModulo(tail, blkNum);
      front == (tail + 1) % blkNum
    }

    /** que_obj_pop: clears the head block's header, then advances `front`. */
    method Pop()
      requires Valid()
      modifies this`front, buffer
      ensures Valid() && State() == RingPop(old(State()))
      ensures Contents() == if old(Contents()) == [] then [] else old(Contents())[1..]
    {
      PopDropsOldest(State(), capacity);
      NextIsModulo(front, blkNum);
      if front != tail {
        buffer[front] := buffer[front].(dataLen := 0);
        buffer[front] := buffer[front].(status := 0);
        front := (front + 1) % blkNum;
      }
      assert State().blocks == RingPop(old(State())).blocks;
    }

    /** The three stores of que_obj_add into the tail block. */
    method StoreBlock(pos: nat, bytes: seq<byte>)
      requires pos < buffer.Length && |bytes| <= |buffer[pos].data|
      modifies buffer
      ensures buffer[..] == old(buffer[..])[pos := Block(IN_USE, |bytes|, Overlay(old(buffer[pos]).data, bytes))]
    {
      buffer[pos] := buffer[pos].(dataLen := |bytes|);
      buffer[pos] := buffer[pos].(status := IN_USE);
      buffer[pos] := buffer[pos].(data := Overlay(buffer[pos].data, bytes));
    }

    /** que_obj_add: a size that does not fit is an error (a negative one too, since the test is
        made on unsigned values); a full queue is not, the data is dropped. */
    method Add(data: seq<byte>, size: int) returns (status: Status)
      requires Valid()
      requires size <= |data|
      modifies this`tail, buffer
      ensures Valid()
      ensures status == Err <==> size < 0 || blkSize - 8 < size
      ensures status == Err ==> State() == old(State())
      ensures status == Ok ==> State() == RingAdd(old(State()), data[..size])
      ensures status == Ok ==> Contents() == FifoPut(old(Contents()), blkNum - 1, data[..size])
    {
      if size < 0 || blkSize - HEADER_SIZE < size {
        return Err;
      }
      AddIsFillThenMove(State(), capacity, data[..size]);
      StoreIfRoom(data[..size]);
      status := Ok;
    }

    /** The test for room, the stores, and the store of `tail`. */
    method StoreIfRoom(bytes: seq<byte>)
      requires tail < blkNum == buffer.Length && |bytes| <= |buffer[tail].data|
      modifies this`tail, buffer
      ensures State() == RingAdd(old(State()), bytes)
    {
      NextIsModulo(tail, blkNum);
      var next := (tail + 1) % blkNum;
      if next != front {
        StoreBlock(tail, bytes);
        tail := next;
      }
    }

    /** que_obj_head: the position of the oldest live block, or nothing. */
    method Head() returns (pos: int)
      requires Valid()
      ensures pos == -1 <==> Contents() == []
      ensures pos != -1 ==> 0 <= pos < buffer.Length && 0 <= buffer[pos].dataLen <= |buffer[pos].data|
      ensures pos != -1 ==> Payload(buffer[pos]) == Contents()[0]
    {
      pos := if Empty() then -1 else front;
      if front != tail {
        assert Position(front, 0, blkNum) == front;
      }
    }

    /** que_obj_tail: the position of the newest live block, or nothing. */
    method Tail() returns (pos: int)
      requires Valid()
      ensures pos == -1 <==> Contents() == []
      ensures pos != -1 ==> 0 <= pos < buffer.Length && 0 <= buffer[pos].dataLen <= |buffer[pos].data|
      ensures pos != -1 ==> Payload(buffer[pos]) == Contents()[|Contents()| - 1]
    {
      var last := tail - 1;
      if Empty() {
        return -1;
      }
      if last < 0 {
        last := blkNum - 1;
      }
      assert Position(front, Distance(front, tail, blkNum) - 1, blkNum) == last;
      return last;
    }

    /** que_obj_next_freeblk, and the writes its caller makes into that block (f1g_server.c). */
    method FillFreeBlock(bytes: seq<byte>)
      requires Valid()
      requires |bytes| <= blkSize - HEADER_SIZE
      modifies buffer
      ensures Valid() && State() == RingFill(old(State()), bytes)
      ensures Contents() == old(Contents())
      ensures buffer[tail].dataLen == |bytes| && Payload(buffer[tail]) == bytes
    {
      FillIsInvisible(State(), capacity, bytes);
      buffer[tail] := buffer[tail].(data := Overlay(buffer[tail].data, bytes));
      buffer[tail] := buffer[tail].(dataLen := |bytes|);
      assert State().blocks == RingFill(old(State()), bytes).blocks;
    }

    /** que_obj_move_next: publishes the free block, unless the queue is full. */
    method MoveNext() returns (status: Status)
      requires Valid()
      requires 0 <= buffer[tail].dataLen <= blkSize - HEADER_SIZE
      modifies this`tail
      ensures Valid() && State() == RingMoveNext(old(State()))
      ensures status == Err <==> |old(Contents())| == blkNum - 1
      ensures Contents() == FifoPut(old(Contents()), blkNum - 1, old(Payload(buffer[tail])))
    {
      MovePublishes(State(), capacity);
      NextIsModulo(tail, blkNum);
      if Full() {
        return Err;
      }
      tail := (tail + 1) % blkNum;
      return Ok;
    }
  }
}
