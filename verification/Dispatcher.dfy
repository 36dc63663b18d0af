/** One access thread, many workers, no locks (f1g_server.c over f1g_queue.c).

    Every load and store of `front`, `tail`, a block word or a block length is one step of one
    thread, and a run is any interleaving of steps, under sequentially consistent memory.  The
    access thread follows que_obj_next_freeblk, memcpy, BLK_DATA_LEN and que_obj_move_next; each
    worker follows que_obj_empty, que_obj_head, its reads of the block, and que_obj_pop. */
module Dispatcher {
  import opened Common
  import opened Queues
  import opened QueueSelection

  /** sock_info_t */
  datatype SockInfo = SockInfo(fd: uint32, srcIp: uint32, srcPort: uint32, sockStatus: uint32)

  /** As the words that memcpy stores. */
  function Words(info: SockInfo): Event {
    [info.fd, info.srcIp, info.srcPort, info.sockStatus]
  }

  const INFO_WORDS := 4
  const SRC_IP := 1
  /** sizeof(sock_info_t), the length stored in front of every event. */
  const INFO_SIZE := 12

  type Event = w: seq<uint32> | |w| == INFO_WORDS witness [0, 0, 0, 0]

  datatype Cell = Cell(status: int, dataLen: int, words: seq<uint32>)

  /** One read a worker makes of the block it holds: word `k`, or the length when k is INFO_WORDS. */
  datatype Seen = Seen(k: nat, value: int)

  datatype WorkerPc =
    | EmptyLoadFront | EmptyLoadTail(f: nat)                        // que_obj_empty in the loop
    | HeadLoadFront | HeadLoadTail(f: nat) | HeadAddress            // que_obj_head
    | NullHead                                                      // que_obj_head gave no block
    | Holding(pos: nat)
    | PopLoadFront | PopLoadTail(f: nat) | PopAddress               // que_obj_pop
    | ClearLength(pos: nat) | ClearStatus(pos: nat) | PopReload | PopStore(f: nat)

  /** A queue and its worker.  `got` is what the worker has read of the current block and `done`
      what it read of each block it has popped: history that no step depends on. */
  datatype Lane = Lane(front: nat, tail: nat, blocks: seq<Cell>, pc: WorkerPc, got: seq<Seen>, done: seq<seq<Seen>>)

  datatype AccessPc =
    | Idle
    | NextFreeBlock                                                 // que_obj_next_freeblk
    | Copy(pos: nat, k: nat) | SetLength(pos: nat)
    | FullLoadFront | FullLoadTail(f: nat)                          // que_obj_full
    | MoveLoadTail | MoveStore(t: nat)                              // the advance itself

  datatype Access = Access(pc: AccessPc, sel: nat, ev: Event)

  /** An event the access thread is done with, and whether que_obj_move_next succeeded. */
  datatype Offer = Offer(ev: Event, accepted: bool)

  datatype System = System(lanes: seq<Lane>, access: Access, log: seq<Offer>)

  datatype Step = Detect(info: SockInfo) | AccessMove | WorkerMove(i: nat) | WorkerRead(r: nat, k: nat)

  // ---------------------------------------------------------------- the threads

  function ReadWord(c: Cell, k: nat): int
    requires |c.words| == INFO_WORDS && k <= INFO_WORDS
  {
    if k < INFO_WORDS then c.words[k] else c.dataLen
  }

  predicate Shaped(l: Lane, n: nat) {
    && l.front < n
    && l.tail < n
    && |l.blocks| == n
    && (forall k | 0 <= k < n :: |l.blocks[k].words| == INFO_WORDS)
    && (l.pc.EmptyLoadTail? || l.pc.HeadLoadTail? || l.pc.PopLoadTail? || l.pc.PopStore? ==> l.pc.f < n)
    && (l.pc.Holding? || l.pc.ClearLength? || l.pc.ClearStatus? ==> l.pc.pos < n)
  }

  /** The next load or store of a worker that does not choose to read its block. */
  function WorkerStep(l: Lane, n: nat): Lane
    requires Shaped(l, n)
  {
    match l.pc
    case EmptyLoadFront => l.(pc := EmptyLoadTail(l.front))
    case EmptyLoadTail(f) => l.(pc := if f == l.tail then EmptyLoadFront else HeadLoadFront)
    case HeadLoadFront => l.(pc := HeadLoadTail(l.front))
    case HeadLoadTail(f) => l.(pc := if f == l.tail then NullHead else HeadAddress)
    case HeadAddress => l.(pc := Holding(l.front), got := [])
    case NullHead => l
    case Holding(_) => l.(pc := PopLoadFront)
    case PopLoadFront => l.(pc := PopLoadTail(l.front))
    case PopLoadTail(f) => l.(pc := if f != l.tail then PopAddress else EmptyLoadFront)
    case PopAddress => l.(pc := ClearLength(l.front))
    case ClearLength(p) => l.(pc := ClearStatus(p), blocks := l.blocks[p := l.blocks[p].(dataLen := 0)])
    case ClearStatus(p) => l.(pc := PopReload, blocks := l.blocks[p := l.blocks[p].(status := 0)])
    case PopReload => l.(pc := PopStore(l.front))
    case PopStore(f) => l.(pc := EmptyLoadFront, front := Next(f, n), done := l.done + [l.got], got := [])
  }

  /** A worker holding a block reads any word of it, as often as it likes. */
  function WorkerSees(l: Lane, n: nat, k: nat): Lane
    requires Shaped(l, n) && k <= INFO_WORDS
  {
    if l.pc.Holding? then l.(got := l.got + [Seen(k, ReadWord(l.blocks[l.pc.pos], k))]) else l
  }

  predicate AccessShaped(a: Access, n: nat) {
    match a.pc
    case Copy(pos, k) => pos < n && k < INFO_WORDS
    case SetLength(pos) => pos < n
    case FullLoadTail(f) => f < n
    case MoveStore(t) => t < n
    case _ => true
  }

  /** The next load or store of the access thread on the lane it selected. */
  function AccessStep(l: Lane, a: Access, n: nat): (Lane, Access)
    requires Shaped(l, n) && AccessShaped(a, n)
  {
    match a.pc
    case Idle => (l, a)
    case NextFreeBlock => (l, a.(pc := Copy(l.tail, 0)))
    case Copy(p, k) =>
      (l.(blocks := l.blocks[p := l.blocks[p].(words := l.blocks[p].words[k := a.ev[k]])]),
       a.(pc := if k + 1 < INFO_WORDS then Copy(p, k + 1) else SetLength(p)))
    case SetLength(p) =>
      (l.(blocks := l.blocks[p := l.blocks[p].(dataLen := INFO_SIZE)]), a.(pc := FullLoadFront))
    case FullLoadFront => (l, a.(pc := FullLoadTail(l.front)))
    case FullLoadTail(f) => (l, a.(pc := if f == Next(l.tail, n) then Idle else MoveLoadTail))
    case MoveLoadTail => (l, a.(pc := MoveStore(l.tail)))
    case MoveStore(t) => (l.(tail := Next(t, n)), a.(pc := Idle))
  }

  /** Only a successful que_obj_full test, or the store of `tail`, ends an event. */
  function LogStep(a: Access, next: Access, log: seq<Offer>): seq<Offer> {
    if a.pc.Idle? || !next.pc.Idle? then log else log + [Offer(a.ev, a.pc.MoveStore?)]
  }

  // ---------------------------------------------------------------- the system

  predicate SystemShaped(s: System, n: nat) {
    && |s.lanes| > 0
    && (forall i | 0 <= i < |s.lanes| :: Shaped(s.lanes[i], n))
    && s.access.sel < |s.lanes|
    && AccessShaped(s.access, n)
  }

  predicate StepShaped(s: System, step: Step) {
    match step
    case Detect(_) => s.access.pc.Idle?
    case WorkerMove(i) => i < |s.lanes|
    case WorkerRead(i, k) => i < |s.lanes| && k <= INFO_WORDS
    case _ => true
  }

  function Apply(s: System, n: nat, step: Step): System
    requires SystemShaped(s, n) && StepShaped(s, step)
  {
    match step
    case Detect(info) => s.(access := Access(NextFreeBlock, SelQue(info.srcIp, |s.lanes|), Words(info)))
    case AccessMove =>
      var (l, a) := AccessStep(s.lanes[s.access.sel], s.access, n);
      System(s.lanes[s.access.sel := l], a, LogStep(s.access, a, s.log))
    case WorkerMove(i) => s.(lanes := s.lanes[i := WorkerStep(s.lanes[i], n)])
    case WorkerRead(i, k) => s.(lanes := s.lanes[i := WorkerSees(s.lanes[i], n, k)])
  }

  /** serv_create: empty queues, idle threads; malloc leaves arbitrary words in the blocks. */
  predicate Initial(s: System, n: nat) {
    && SystemShaped(s, n)
    && s.access.pc == Idle
    && s.log == []
    && forall i | 0 <= i < |s.lanes| ::
         var l := s.lanes[i];
         l.front == 0 && l.tail == 0 && l.pc == EmptyLoadFront && l.got == [] && l.done == []
  }

  /** The events for lane `i` whose advance of the tail succeeded, in order. */
  function Accepted(log: seq<Offer>, lanes: nat, i: nat): seq<Event>
    requires lanes > 0
  {
    if log == [] then []
    else
      var o := log[|log| - 1];
      var before := Accepted(log[..|log| - 1], lanes, i);
      if o.accepted && SelQue(o.ev[SRC_IP], lanes) == i then before + [o.ev] else before
  }

  // ---------------------------------------------------------------- what every step keeps

  function EventWord(ev: Event, k: nat): int
    requires k <= INFO_WORDS
  {
    if k < INFO_WORDS then ev[k] else INFO_SIZE
  }

  /** Everything seen is what the access thread wrote for this event. */
  ghost predicate Agrees(got: seq<Seen>, ev: Event) {
    forall o | o in got :: o.k <= INFO_WORDS && o.value == EventWord(ev, o.k)
  }

  /** The worker has cleared the length of the block it is about to give up. */
  predicate LengthCleared(pc: WorkerPc) {
    pc.ClearStatus? || pc.PopReload? || pc.PopStore?
  }

  /** The queue holds exactly the accepted events not yet popped, in order and unmodified. */
  ghost predicate Stored(l: Lane, n: nat, accepted: seq<Event>)
    requires Shaped(l, n)
  {
    var d := Distance(l.front, l.tail, n);
    && |l.done| + d == |accepted|
    && (forall k: nat | k < d ::
          var c := l.blocks[Position(l.front, k, n)];
          c.words == accepted[|l.done| + k] && ((k == 0 && LengthCleared(l.pc)) || c.dataLen == INFO_SIZE))
    && (forall j | 0 <= j < |l.done| :: Agrees(l.done[j], accepted[j]))
  }

  ghost predicate WorkerOk(l: Lane, n: nat, accepted: seq<Event>)
    requires Shaped(l, n) && Stored(l, n, accepted)
  {
    && (l.pc.EmptyLoadTail? || l.pc.HeadLoadTail? || l.pc.PopLoadTail? || l.pc.PopStore? ==> l.pc.f == l.front)
    && (l.pc.Holding? || l.pc.ClearLength? || l.pc.ClearStatus? ==> l.pc.pos == l.front)
    && !l.pc.NullHead?
    && (!l.pc.EmptyLoadFront? && !l.pc.EmptyLoadTail? ==> l.front != l.tail)
    && (!l.pc.EmptyLoadFront? && !l.pc.EmptyLoadTail? && !l.pc.HeadLoadFront? && !l.pc.HeadLoadTail? &&
        !l.pc.HeadAddress? ==>
          Agrees(l.got, accepted[|l.done|]))
  }

  /** The access thread writes only the tail block, and advances only past a complete event. */
  ghost predicate WriterOk(l: Lane, n: nat, a: Access)
    requires Shaped(l, n) && AccessShaped(a, n)
  {
    var c := l.blocks[l.tail];
    match a.pc
    case Copy(p, k) => p == l.tail && c.words[..k] == a.ev[..k]
    case SetLength(p) => p == l.tail && c.words == a.ev
    case FullLoadFront => c.words == a.ev && c.dataLen == INFO_SIZE
    case FullLoadTail(f) => c.words == a.ev && c.dataLen == INFO_SIZE &&
        (f == Next(l.tail, n) || l.front != Next(l.tail, n))
    case MoveLoadTail => c.words == a.ev && c.dataLen == INFO_SIZE && l.front != Next(l.tail, n)
    case MoveStore(t) => t == l.tail && c.words == a.ev && c.dataLen == INFO_SIZE && l.front != Next(l.tail, n)
    case _ => true
  }

  ghost predicate LaneOk(l: Lane, n: nat, accepted: seq<Event>) {
    Shaped(l, n) && Stored(l, n, accepted) && WorkerOk(l, n, accepted)
  }

  ghost predicate Invariant(s: System, n: nat) {
    && SystemShaped(s, n)
    && (forall i | 0 <= i < |s.lanes| :: LaneOk(s.lanes[i], n, Accepted(s.log, |s.lanes|, i)))
    && WriterOk(s.lanes[s.access.sel], n, s.access)
    && (!s.access.pc.Idle? ==> s.access.sel == SelQue(s.access.ev[SRC_IP], |s.lanes|))
  }

  // ---------------------------------------------------------------- worker steps

  /** Popping: the oldest event leaves the queue and joins what the worker is done with. */
  lemma PopKeepsLane(l: Lane, n: nat, accepted: seq<Event>)
    requires LaneOk(l, n, accepted) && l.pc.PopStore?
    ensures LaneOk(WorkerStep(l, n), n, accepted)
  {
    AdvanceFront(l.front, l.tail, n);
    var m := WorkerStep(l, n);
    forall k: nat | k < Distance(m.front, m.tail, n)
      ensures m.blocks[Position(m.front, k, n)] == l.blocks[Position(l.front, k + 1, n)]
    {
    }
  }

  /** Clearing a word of the head block, which is the worker's own. */
  lemma ClearKeepsLane(l: Lane, n: nat, accepted: seq<Event>)
    requires LaneOk(l, n, accepted) && (l.pc.ClearLength? || l.pc.ClearStatus?)
    ensures LaneOk(WorkerStep(l, n), n, accepted)
  {
    AdvanceFront(l.front, l.tail, n);
    assert Position(l.front, 0, n) == l.front;
  }

  lemma StoredFrame(l: Lane, m: Lane, n: nat, accepted: seq<Event>)
    requires Shaped(l, n) && Shaped(m, n) && Stored(l, n, accepted)
    requires m.front == l.front && m.tail == l.tail && m.blocks == l.blocks && m.done == l.done
    requires LengthCleared(l.pc) ==> LengthCleared(m.pc)
    ensures Stored(m, n, accepted)
  {
  }

  /** A load changes no more than what the worker knows. */
  lemma LoadKeepsLane(l: Lane, n: nat, accepted: seq<Event>)
    requires LaneOk(l, n, accepted) && !l.pc.ClearLength? && !l.pc.ClearStatus? && !l.pc.PopStore?
    ensures LaneOk(WorkerStep(l, n), n, accepted)
  {
    StoredFrame(l, WorkerStep(l, n), n, accepted);
    if l.front != l.tail {
      AdvanceFront(l.front, l.tail, n);
    }
  }

  lemma WorkerKeepsLane(l: Lane, n: nat, accepted: seq<Event>)
    requires LaneOk(l, n, accepted)
    ensures LaneOk(WorkerStep(l, n), n, accepted)
  {
    if l.pc.PopStore? {
      PopKeepsLane(l, n, accepted);
    } else if l.pc.ClearLength? || l.pc.ClearStatus? {
      ClearKeepsLane(l, n, accepted);
    } else {
      LoadKeepsLane(l, n, accepted);
    }
  }

  /** A worker never disturbs the access thread, even when it pops between its two loads. */
  lemma WorkerKeepsWriter(l: Lane, n: nat, accepted: seq<Event>, a: Access)
    requires LaneOk(l, n, accepted) && AccessShaped(a, n) && WriterOk(l, n, a)
    ensures Shaped(WorkerStep(l, n), n)
    ensures WriterOk(WorkerStep(l, n), n, a)
  {
    AdvanceTail(l.front, l.tail, n);
    if l.front != l.tail {
      AdvanceFront(l.front, l.tail, n);
      AdvanceTail(Next(l.front, n), l.tail, n);
    }
  }

  lemma ReadKeepsLane(l: Lane, n: nat, accepted: seq<Event>, k: nat)
    requires LaneOk(l, n, accepted) && k <= INFO_WORDS
    ensures LaneOk(WorkerSees(l, n, k), n, accepted)
  {
    if l.pc.Holding? {
      assert Position(l.front, 0, n) == l.front;
      AdvanceFront(l.front, l.tail, n);
    }
  }

  // ---------------------------------------------------------------- access steps

  /** A store into the tail block touches no live block. */
  lemma TailStoreKeepsLane(l: Lane, n: nat, accepted: seq<Event>, c: Cell)
    requires LaneOk(l, n, accepted) && |c.words| == INFO_WORDS
    ensures LaneOk(l.(blocks := l.blocks[l.tail := c]), n, accepted)
  {
    AdvanceTail(l.front, l.tail, n);
  }

  /** The store of `tail` publishes the event, whatever the worker is doing. */
  lemma AdvanceKeepsLane(l: Lane, n: nat, accepted: seq<Event>, ev: Event)
    requires LaneOk(l, n, accepted)
    requires l.front != Next(l.tail, n)
    requires l.blocks[l.tail].words == ev && l.blocks[l.tail].dataLen == INFO_SIZE
    ensures LaneOk(l.(tail := Next(l.tail, n)), n, accepted + [ev])
  {
    AdvanceTail(l.front, l.tail, n);
    var m, longer := l.(tail := Next(l.tail, n)), accepted + [ev];
    forall k: nat | k < Distance(m.front, m.tail, n)
      ensures m.blocks[Position(m.front, k, n)].words == longer[|m.done| + k]
      ensures (k == 0 && LengthCleared(m.pc)) || m.blocks[Position(m.front, k, n)].dataLen == INFO_SIZE
    {
    }
    assert Stored(m, n, longer);
  }

  /** One more word of the event is in the tail block. */
  lemma CopyKeepsLane(l: Lane, n: nat, accepted: seq<Event>, a: Access)
    requires LaneOk(l, n, accepted) && AccessShaped(a, n) && WriterOk(l, n, a) && a.pc.Copy?
    ensures
      var (m, b) := AccessStep(l, a, n);
      LaneOk(m, n, accepted) && AccessShaped(b, n) && WriterOk(m, n, b)
  {
    var (m, b) := AccessStep(l, a, n);
    var p, k := a.pc.pos, a.pc.k;
    TailStoreKeepsLane(l, n, accepted, m.blocks[p]);
    assert m.blocks[p].words[..k + 1] == a.ev[..k] + [a.ev[k]] == a.ev[..k + 1];
  }

  lemma LengthKeepsLane(l: Lane, n: nat, accepted: seq<Event>, a: Access)
    requires LaneOk(l, n, accepted) && AccessShaped(a, n) && WriterOk(l, n, a) && a.pc.SetLength?
    ensures
      var (m, b) := AccessStep(l, a, n);
      LaneOk(m, n, accepted) && AccessShaped(b, n) && WriterOk(m, n, b)
  {
    var (m, b) := AccessStep(l, a, n);
    TailStoreKeepsLane(l, n, accepted, m.blocks[a.pc.pos]);
  }

  lemma AccessKeepsLane(l: Lane, n: nat, accepted: seq<Event>, a: Access)
    requires LaneOk(l, n, accepted) && AccessShaped(a, n) && WriterOk(l, n, a)
    ensures
      var (m, b) := AccessStep(l, a, n);
      && LaneOk(m, n, if a.pc.MoveStore? then accepted + [a.ev] else accepted)
      && AccessShaped(b, n) && WriterOk(m, n, b)
  {
    if a.pc.Copy? {
      CopyKeepsLane(l, n, accepted, a);
    } else if a.pc.SetLength? {
      LengthKeepsLane(l, n, accepted, a);
    } else if a.pc.MoveStore? {
      AdvanceTail(l.front, l.tail, n);
      AdvanceKeepsLane(l, n, accepted, a.ev);
    }
  }

  // ---------------------------------------------------------------- every run

  lemma WorkerStepKeeps(s: System, n: nat, i: nat)
    requires Invariant(s, n) && i < |s.lanes|
    ensures Invariant(Apply(s, n, WorkerMove(i)), n)
  {
    WorkerKeepsLane(s.lanes[i], n, Accepted(s.log, |s.lanes|, i));
    if i == s.access.sel {
      WorkerKeepsWriter(s.lanes[i], n, Accepted(s.log, |s.lanes|, i), s.access);
    }
  }

  lemma WorkerReadKeeps(s: System, n: nat, i: nat, k: nat)
    requires Invariant(s, n) && i < |s.lanes| && k <= INFO_WORDS
    ensures Invariant(Apply(s, n, WorkerRead(i, k)), n)
  {
    ReadKeepsLane(s.lanes[i], n, Accepted(s.log, |s.lanes|, i), k);
  }

  lemma AccessStepKeeps(s: System, n: nat)
    requires Invariant(s, n)
    ensures Invariant(Apply(s, n, AccessMove), n)
  {
    var sel, t := s.access.sel, Apply(s, n, AccessMove);
    AccessKeepsLane(s.lanes[sel], n, Accepted(s.log, |s.lanes|, sel), s.access);
    forall i: nat | i < |s.lanes|
      ensures LaneOk(t.lanes[i], n, Accepted(t.log, |s.lanes|, i))
    {
      if t.log != s.log {
        assert t.log[..|t.log| - 1] == s.log;
      }
    }
  }

  lemma StepKeepsInvariant(s: System, n: nat, step: Step)
    requires Invariant(s, n) && StepShaped(s, step)
    ensures Invariant(Apply(s, n, step), n)
  {
    match step
    case Detect(_) =>
    case AccessMove => AccessStepKeeps(s, n);
    case WorkerMove(i) => WorkerStepKeeps(s, n, i);
    case WorkerRead(i, k) => WorkerReadKeeps(s, n, i, k);
  }

  /** `trace` is an execution: it starts as serv_create leaves things and each state follows
      from the one before by one step of some thread. */
  ghost predicate Execution(trace: seq<System>, n: nat) {
    && |trace| > 0
    && (forall i | 0 <= i < |trace| :: SystemShaped(trace[i], n))
    && Initial(trace[0], n)
    && forall i | 0 < i < |trace| :: Follows(trace[i - 1], trace[i], n)
  }

  ghost predicate Follows(s: System, t: System, n: nat)
    requires SystemShaped(s, n)
  {
    exists step :: StepShaped(s, step) && t == Apply(s, n, step)
  }

  lemma InitialInvariant(s: System, n: nat)
    requires SystemShaped(s, n) && Initial(s, n)
    ensures Invariant(s, n)
  {
    forall i: nat | i < |s.lanes|
      ensures LaneOk(s.lanes[i], n, [])
    {
    }
  }

  lemma FollowsKeepsInvariant(s: System, t: System, n: nat)
    requires Invariant(s, n) && Follows(s, t, n)
    ensures Invariant(t, n) && |t.lanes| == |s.lanes|
  {
    var step :| StepShaped(s, step) && t == Apply(s, n, step);
    StepKeepsInvariant(s, n, step);
  }

  // Invariant, one step, and Execution, seen through only where LookInside or LookAtRun is mentioned.

  predicate LookAtRun(x: int) {
    true
  }

  ghost predicate Safe(s: System, n: nat) {
    forall x: int :: LookInside(x) ==> Invariant(s, n)
  }

  ghost predicate Leads(s: System, t: System, n: nat) {
    forall x: int :: LookAtRun(x) ==> SystemShaped(s, n) && Follows(s, t, n)
  }

  ghost predicate Run(trace: seq<System>, n: nat) {
    |trace| > 0 && forall x: int :: LookAtRun(x) ==> Execution(trace, n)
  }

  lemma LeadsStaysSafe(s: System, t: System, n: nat)
    requires Safe(s, n) && Leads(s, t, n)
    ensures Safe(t, n) && |t.lanes| == |s.lanes|
  {
    assert LookInside(0) && LookAtRun(0);
    FollowsKeepsInvariant(s, t, n);
  }

  lemma RunStartsSafe(trace: seq<System>, n: nat)
    requires Run(trace, n)
    ensures Safe(trace[0], n)
  {
    assert LookAtRun(0);
    InitialInvariant(trace[0], n);
  }

  lemma RunLeads(trace: seq<System>, n: nat, i: nat)
    requires Run(trace, n) && 0 < i < |trace|
    ensures Leads(trace[i - 1], trace[i], n)
  {
    assert LookAtRun(0);
  }

  lemma {:induction false} RunStaysSafe(trace: seq<System>, n: nat, i: nat)
    requires Run(trace, n) && i < |trace|
    ensures Safe(trace[i], n) && |trace[i].lanes| == |trace[0].lanes|
  {
    if i == 0 {
      RunStartsSafe(trace, n);
    } else {
      RunStaysSafe(trace, n, i - 1);
      RunLeads(trace, n, i);
      LeadsStaysSafe(trace[i - 1], trace[i], n);
    }
  }

  lemma ExecutionKeepsInvariant(trace: seq<System>, n: nat, i: nat)
    requires Execution(trace, n) && i < |trace|
    ensures Invariant(trace[i], n) && |trace[i].lanes| == |trace[0].lanes|
  {
    RunStaysSafe(trace, n, i);
    assert LookInside(0);
  }

  // ---------------------------------------------------------------- the guarantees

  /** In every state of every execution, what worker `w` has read of its j-th block, finished or
      in hand, is the j-th event whose advance succeeded on its queue; none is lost, repeated,
      reordered or changed. */
  lemma DeliveredInOrder(trace: seq<System>, n: nat, i: nat, w: nat)
    requires Execution(trace, n) && i < |trace| && w < |trace[i].lanes|
    ensures
      var l, accepted := trace[i].lanes[w], Accepted(trace[i].log, |trace[i].lanes|, w);
      && |accepted| == |l.done| + Distance(l.front, l.tail, n)
      && (forall j | 0 <= j < |l.done| :: Agrees(l.done[j], accepted[j]))
      && (l.pc.Holding? ==> |l.done| < |accepted| && Agrees(l.got, accepted[|l.done|]))
  {
    ExecutionKeepsInvariant(trace, n, i);
    var l := trace[i].lanes[w];
    if l.front != l.tail {
      AdvanceFront(l.front, l.tail, n);
    }
  }

  /** The block the access thread is filling is never live, even when the queue is full, so it is
      never the block in a worker's hands; and que_obj_head never fails after que_obj_empty said
      there is something. */
  lemma FillingIsPrivate(trace: seq<System>, n: nat, i: nat)
    requires Execution(trace, n) && i < |trace|
    ensures
      var s := trace[i];
      var l := s.lanes[s.access.sel];
      (s.access.pc.Copy? || s.access.pc.SetLength?) ==>
        && (forall k: nat | k < Distance(l.front, l.tail, n) :: Position(l.front, k, n) != s.access.pc.pos)
        && (l.pc.Holding? || l.pc.ClearLength? || l.pc.ClearStatus? ==> l.pc.pos != s.access.pc.pos)
    ensures forall w | 0 <= w < |trace[i].lanes| :: !trace[i].lanes[w].pc.NullHead?
  {
    ExecutionKeepsInvariant(trace, n, i);
    var l := trace[i].lanes[trace[i].access.sel];
    AdvanceTail(l.front, l.tail, n);
  }

  function SelectedLane(s: System): Lane
    requires s.access.sel < |s.lanes|
  {
    s.lanes[s.access.sel]
  }

  /** The queue of the event in hand holds all it can. */
  predicate QueueFull(s: System, n: nat)
    requires SystemShaped(s, n)
  {
    Distance(SelectedLane(s).front, SelectedLane(s).tail, n) == n - 1
  }

  /** Between its load of `front` and its load of `tail` que_obj_full remembers whether the queue was
      full at the first, however much the workers pop in between. */
  ghost predicate Remembers(s: System, t: System, n: nat)
    requires SystemShaped(s, n) && SystemShaped(t, n) && t.access.pc.FullLoadTail?
  {
    && t.access.sel == s.access.sel && t.access.ev == s.access.ev
    && (t.access.pc.f == Next(SelectedLane(t).tail, n) <==> QueueFull(s, n))
  }

  lemma TestBegins(s: System, t: System, n: nat)
    requires SystemShaped(s, n) && SystemShaped(t, n) && Follows(s, t, n)
    requires s.access.pc.FullLoadFront? && t.access.pc.FullLoadTail?
    ensures Remembers(s, t, n)
  {
    AdvanceTail(SelectedLane(s).front, SelectedLane(s).tail, n);
  }

  lemma TestWaits(s: System, t: System, u: System, n: nat)
    requires SystemShaped(s, n) && SystemShaped(t, n) && SystemShaped(u, n) && Follows(t, u, n)
    requires t.access.pc.FullLoadTail? && u.access.pc.FullLoadTail? && Remembers(s, t, n)
    ensures Remembers(s, u, n)
  {
  }

  /** From state `j` on, the test of que_obj_full is under way up to state `i`. */
  ghost predicate Testing(trace: seq<System>, j: nat, i: nat) {
    && j < i < |trace| && trace[j].access.pc.FullLoadFront?
    && forall k | j < k <= i :: trace[k].access.pc.FullLoadTail?
  }

  lemma {:induction false} TestRemembers(trace: seq<System>, n: nat, j: nat, i: nat)
    requires Execution(trace, n) && Testing(trace, j, i)
    ensures Remembers(trace[j], trace[i], n)
    decreases i
  {
    if i == j + 1 {
      TestBegins(trace[j], trace[i], n);
    } else {
      TestRemembers(trace, n, j, i - 1);
      TestWaits(trace[j], trace[i - 1], trace[i], n);
    }
  }

  /** In every interleaving, que_obj_move_next gives up exactly if the queue was full when
      que_obj_full loaded `front`. */
  lemma FailsExactlyWhenFull(trace: seq<System>, n: nat, j: nat, i: nat)
    requires Execution(trace, n) && Testing(trace, j, i) && i + 1 < |trace| && !trace[i + 1].access.pc.FullLoadTail?
    ensures trace[i + 1].access.pc.Idle? <==> QueueFull(trace[j], n)
    ensures trace[i + 1].access.pc.Idle? || trace[i + 1].access.pc.MoveLoadTail?
  {
    TestRemembers(trace, n, j, i);
    assert Follows(trace[i], trace[i + 1], n);
  }

  /** Every test under way has begun somewhere. */
  lemma {:induction false} TestHasBegun(trace: seq<System>, n: nat, i: nat) returns (j: nat)
    requires Execution(trace, n) && i < |trace| && trace[i].access.pc.FullLoadTail?
    ensures Testing(trace, j, i)
  {
    assert Follows(trace[i - 1], trace[i], n);
    if trace[i - 1].access.pc.FullLoadTail? {
      j := TestHasBegun(trace, n, i - 1);
    } else {
      j := i - 1;
    }
  }

  /** A failed advance changes no queue: only the event in hand is lost, and only if the queue was
      full when que_obj_full loaded `front` for that event. */
  lemma FailureLosesOnlyTheEvent(trace: seq<System>, n: nat, i: nat)
    requires Execution(trace, n) && i + 1 < |trace|
    requires |trace[i + 1].log| > |trace[i].log| && !trace[i + 1].log[|trace[i + 1].log| - 1].accepted
    ensures trace[i + 1].lanes == trace[i].lanes &&
        trace[i + 1].log == trace[i].log + [Offer(trace[i].access.ev, false)]
    ensures exists j ::
              && 0 <= j < i && trace[j].access.pc.FullLoadFront? && QueueFull(trace[j], n)
              && trace[j].access.sel == trace[i].access.sel && trace[j].access.ev == trace[i].access.ev
  {
    assert Follows(trace[i], trace[i + 1], n);
    var j := TestHasBegun(trace, n, i);
    TestRemembers(trace, n, j, i);
  }

  // ---------------------------------------------------------------- per source address

  function From(evs: seq<Event>, ip: uint32): seq<Event> {
    if evs == [] then []
    else
      var before := From(evs[..|evs| - 1], ip);
      if evs[|evs| - 1][SRC_IP] == ip then before + [evs[|evs| - 1]] else before
  }

  /** The accepted events of one source, over all queues, in arrival order. */
  function AcceptedFrom(log: seq<Offer>, ip: uint32): seq<Event> {
    if log == [] then []
    else
      var o, before := log[|log| - 1], AcceptedFrom(log[..|log| - 1], ip);
      if o.accepted && o.ev[SRC_IP] == ip then before + [o.ev] else before
  }

  /** All accepted events of a source are in the one queue its address selects, in arrival order. */
  lemma {:induction false} SourceStaysInOneQueue(log: seq<Offer>, lanes: nat, ip: uint32, i: nat)
    requires lanes > 0 && i < lanes
    ensures From(Accepted(log, lanes, i), ip) == if i == SelQue(ip, lanes) then AcceptedFrom(log, ip) else []
  {
    if log != [] {
      var o := log[|log| - 1];
      var before := Accepted(log[..|log| - 1], lanes, i);
      SourceStaysInOneQueue(log[..|log| - 1], lanes, ip, i);
      if o.accepted && SelQue(o.ev[SRC_IP], lanes) == i {
        assert (before + [o.ev])[..|before|] == before;
      }
    }
  }

  /** So each worker's popped blocks carry, for every source of its queue, a prefix of that
      source's accepted events, and nothing of any other source. */
  lemma SourceConsumedInOrder(trace: seq<System>, n: nat, i: nat, w: nat, ip: uint32)
    requires Execution(trace, n) && i < |trace| && w < |trace[i].lanes|
    ensures
      var s, l := trace[i], trace[i].lanes[w];
      var accepted := Accepted(s.log, |s.lanes|, w);
      && |l.done| <= |accepted|
      && (forall j | 0 <= j < |l.done| :: Agrees(l.done[j], accepted[j]))
      && (if w == SelQue(ip, |s.lanes|) then From(accepted[..|l.done|], ip) <= AcceptedFrom(s.log, ip)
          else From(accepted[..|l.done|], ip) == [])
  {
    DeliveredInOrder(trace, n, i, w);
    var s, l := trace[i], trace[i].lanes[w];
    var accepted := Accepted(s.log, |s.lanes|, w);
    SourceStaysInOneQueue(s.log, |s.lanes|, ip, w);
    FromPrefix(accepted, |l.done|, ip);
  }

  lemma {:induction false} FromPrefix(evs: seq<Event>, k: nat, ip: uint32)
    requires k <= |evs|
    ensures From(evs[..k], ip) <= From(evs, ip)
    decreases |evs| - k
  {
    if k == |evs| {
      assert evs[..k] == evs;
    } else {
      assert evs[..k + 1][..k] == evs[..k];
      FromPrefix(evs, k + 1, ip);
    }
  }
}
