/** What becomes of the events that the access thread detects, told from the steps of a run alone; and
    what each thread does when nobody interferes. */
module DispatcherRuns {
  import opened Common
  import opened Queues
  import opened QueueSelection
  import opened Dispatcher

  // ---------------------------------------------------------------- runs with their steps

  /** `trace` is the execution that `steps` drive. */
  ghost predicate Driven(trace: seq<System>, steps: seq<Step>, n: nat) {
    && |trace| == |steps| + 1
    && (forall i | 0 <= i < |trace| :: SystemShaped(trace[i], n))
    && Initial(trace[0], n)
    && forall i | 0 <= i < |steps| :: StepShaped(trace[i], steps[i]) && trace[i + 1] == Apply(trace[i], n, steps[i])
  }

  lemma DrivenIsExecution(trace: seq<System>, steps: seq<Step>, n: nat)
    requires Driven(trace, steps, n)
    ensures Execution(trace, n)
  {
    forall i | 0 < i < |trace|
      ensures Follows(trace[i - 1], trace[i], n)
    {
      assert StepShaped(trace[i - 1], steps[i - 1]);
    }
  }

  lemma {:induction false} ExecutionIsDriven(trace: seq<System>, n: nat) returns (steps: seq<Step>)
    requires Execution(trace, n)
    ensures Driven(trace, steps, n)
    decreases |trace|
  {
    var k := |trace| - 1;
    if k == 0 {
      steps := [];
    } else {
      var before := ExecutionIsDriven(trace[..k], n);
      assert Follows(trace[k - 1], trace[k], n);
      var step :| StepShaped(trace[k - 1], step) && trace[k] == Apply(trace[k - 1], n, step);
      steps := before + [step];
      forall i | 0 <= i < |steps|
        ensures StepShaped(trace[i], steps[i]) && trace[i + 1] == Apply(trace[i], n, steps[i])
      {
        if i < k - 1 {
          assert trace[..k][i] == trace[i] && trace[..k][i + 1] == trace[i + 1] && steps[i] == before[i];
        }
      }
    }
  }

  // ---------------------------------------------------------------- arrivals

  /** What was detected, in order. */
  function Arrivals(steps: seq<Step>): seq<SockInfo> {
    if steps == [] then []
    else
      var before, last := Arrivals(steps[..|steps| - 1]), steps[|steps| - 1];
      if last.Detect? then before + [last.info] else before
  }

  function WordsOf(infos: seq<SockInfo>): (r: seq<Event>)
    ensures |r| == |infos| && forall k | 0 <= k < |infos| :: r[k] == Words(infos[k])
  {
    seq(|infos|, k requires 0 <= k < |infos| => Words(infos[k]))
  }

  function Offered(log: seq<Offer>): (r: seq<Event>)
    ensures |r| == |log| && forall k | 0 <= k < |log| :: r[k] == log[k].ev
  {
    seq(|log|, k requires 0 <= k < |log| => log[k].ev)
  }

  /** The events that the access thread is done with, and the one it has in hand. */
  function Handled(s: System): seq<Event> {
    Offered(s.log) + if s.access.pc.Idle? then [] else [s.access.ev]
  }

  lemma StepHandles(s: System, n: nat, step: Step)
    requires SystemShaped(s, n) && StepShaped(s, step)
    ensures Handled(Apply(s, n, step)) == Handled(s) + if step.Detect? then [Words(step.info)] else []
  {
    if step.AccessMove? {
      var t := Apply(s, n, step);
      assert t.log == s.log || t.log == s.log + [Offer(s.access.ev, s.access.pc.MoveStore?)];
      assert t.log != s.log ==> Offered(t.log) == Offered(s.log) + [s.access.ev];
    }
  }

  /** At every moment the access thread has dealt, or is dealing, with exactly what was detected. */
  lemma {:induction false} ArrivalsAreHandled(trace: seq<System>, steps: seq<Step>, n: nat, i: nat)
    requires Driven(trace, steps, n) && i < |trace|
    ensures Handled(trace[i]) == WordsOf(Arrivals(steps[..i]))
    ensures |trace[i].log| <= |Arrivals(steps[..i])| <= |trace[i].log| + 1
    ensures forall k | 0 <= k < |trace[i].log| :: trace[i].log[k].ev == Words(Arrivals(steps[..i])[k])
  {
    if i == 0 {
      assert steps[..0] == [] && Offered(trace[0].log) == [];
    } else {
      ArrivalsAreHandled(trace, steps, n, i - 1);
      assert steps[..i][..i - 1] == steps[..i - 1];
      StepHandles(trace[i - 1], n, steps[i - 1]);
      assert WordsOf(Arrivals(steps[..i])) ==
             WordsOf(Arrivals(steps[..i - 1])) + if steps[i - 1].Detect? then [Words(steps[i - 1].info)] else [];
    }
    HandledSoFar(trace[i], Arrivals(steps[..i]));
  }

  lemma HandledSoFar(s: System, infos: seq<SockInfo>)
    requires Handled(s) == WordsOf(infos)
    ensures |s.log| <= |infos| <= |s.log| + 1
    ensures forall k | 0 <= k < |s.log| :: s.log[k].ev == Words(infos[k])
  {
    forall k | 0 <= k < |s.log|
      ensures s.log[k].ev == Words(infos[k])
    {
      assert Handled(s)[k] == s.log[k].ev;
    }
  }

  // ---------------------------------------------------------------- which of them are taken

  /** Whether the advance of the tail succeeded, event by event. */
  function Fates(log: seq<Offer>): (r: seq<bool>)
    ensures |r| == |log| && forall k | 0 <= k < |log| :: r[k] == log[k].accepted
  {
    seq(|log|, k requires 0 <= k < |log| => log[k].accepted)
  }

  /** The arrivals that were accepted and whose source address selects queue `w`. */
  function Taken(infos: seq<SockInfo>, fates: seq<bool>, lanes: nat, w: nat): seq<SockInfo>
    requires |fates| <= |infos| && lanes > 0
    decreases |fates|
  {
    if fates == [] then []
    else
      var k := |fates| - 1;
      var before := Taken(infos, fates[..k], lanes, w);
      if fates[k] && SelQue(infos[k].srcIp, lanes) == w then before + [infos[k]] else before
  }

  /** The arrivals from one source that were accepted. */
  function TakenFrom(infos: seq<SockInfo>, fates: seq<bool>, ip: uint32): seq<SockInfo>
    requires |fates| <= |infos|
    decreases |fates|
  {
    if fates == [] then []
    else
      var k := |fates| - 1;
      var before := TakenFrom(infos, fates[..k], ip);
      if fates[k] && infos[k].srcIp == ip then before + [infos[k]] else before
  }

  lemma {:induction false} AcceptedAreTaken(log: seq<Offer>, infos: seq<SockInfo>, lanes: nat, w: nat)
    requires lanes > 0 && |log| <= |infos| && forall k | 0 <= k < |log| :: log[k].ev == Words(infos[k])
    ensures Accepted(log, lanes, w) == WordsOf(Taken(infos, Fates(log), lanes, w))
    decreases |log|
  {
    if log != [] {
      var k := |log| - 1;
      AcceptedAreTaken(log[..k], infos, lanes, w);
      assert Fates(log)[..k] == Fates(log[..k]);
      var before := Taken(infos, Fates(log[..k]), lanes, w);
      assert WordsOf(before + [infos[k]]) == WordsOf(before) + [Words(infos[k])];
    }
  }

  lemma {:induction false} AcceptedFromAreTaken(log: seq<Offer>, infos: seq<SockInfo>, ip: uint32)
    requires |log| <= |infos| && forall k | 0 <= k < |log| :: log[k].ev == Words(infos[k])
    ensures AcceptedFrom(log, ip) == WordsOf(TakenFrom(infos, Fates(log), ip))
    decreases |log|
  {
    if log != [] {
      var k := |log| - 1;
      AcceptedFromAreTaken(log[..k], infos, ip);
      assert Fates(log)[..k] == Fates(log[..k]);
      var before := TakenFrom(infos, Fates(log[..k]), ip);
      assert WordsOf(before + [infos[k]]) == WordsOf(before) + [Words(infos[k])];
    }
  }

  /** A worker has read nothing else than this event, field by field, and its length. */
  ghost predicate Tells(got: seq<Seen>, info: SockInfo) {
    forall o | o in got ::
      || (o.k == 0 && o.value == info.fd) || (o.k == 1 && o.value == info.srcIp)
      || (o.k == 2 && o.value == info.srcPort) || (o.k == 3 && o.value == info.sockStatus)
      || (o.k == 4 && o.value == 12)
  }

  lemma AgreesTells(got: seq<Seen>, info: SockInfo)
    requires Agrees(got, Words(info))
    ensures Tells(got, info)
  {
  }

  /** The main result.  In every state of every run, worker `w` has read of its j-th block, finished or
      in hand, what was detected j-th of the accepted events that its queue is selected for; the block
      in hand is that event. */
  lemma ArrivalsAreDelivered(trace: seq<System>, steps: seq<Step>, n: nat, i: nat, w: nat)
    requires Driven(trace, steps, n) && i < |trace| && w < |trace[i].lanes|
    ensures
      var s, l, infos := trace[i], trace[i].lanes[w], Arrivals(steps[..i]);
      && |s.log| <= |infos|
      && var taken := Taken(infos, Fates(s.log), |s.lanes|, w);
      && |taken| == |l.done| + Distance(l.front, l.tail, n)
      && (forall j | 0 <= j < |l.done| :: Tells(l.done[j], taken[j]))
      && (l.pc.Holding? ==>
            && |l.done| < |taken| && Tells(l.got, taken[|l.done|])
            && l.pc.pos == l.front < |l.blocks|
            && l.blocks[l.front].words == Words(taken[|l.done|]) && l.blocks[l.front].dataLen == 12)
  {
    DrivenIsExecution(trace, steps, n);
    DeliveredInOrder(trace, n, i, w);
    ExecutionKeepsInvariant(trace, n, i);
    ArrivalsAreHandled(trace, steps, n, i);
    var s, l, infos := trace[i], trace[i].lanes[w], Arrivals(steps[..i]);
    AcceptedAreTaken(s.log, infos, |s.lanes|, w);
    var taken := Taken(infos, Fates(s.log), |s.lanes|, w);
    forall j | 0 <= j < |l.done|
      ensures Tells(l.done[j], taken[j])
    {
      AgreesTells(l.done[j], taken[j]);
    }
    if l.pc.Holding? {
      AgreesTells(l.got, taken[|l.done|]);
      assert Position(l.front, 0, n) == l.front;
    }
  }

  /** So whatever a worker reads next of the block in its hands is that event's. */
  lemma ReadsTheArrival(trace: seq<System>, steps: seq<Step>, n: nat, i: nat, w: nat, k: nat)
    requires Driven(trace, steps, n) && i < |steps| && steps[i] == WorkerRead(w, k) && trace[i].lanes[w].pc.Holding?
    ensures
      var l, infos := trace[i].lanes[w], Arrivals(steps[..i]);
      && |trace[i].log| <= |infos|
      && var taken := Taken(infos, Fates(trace[i].log), |trace[i].lanes|, w);
      && |l.done| < |taken|
      && var info := taken[|l.done|];
         trace[i + 1].lanes[w].got == l.got + [Seen(k, [info.fd, info.srcIp, info.srcPort, info.sockStatus, 12][k])]
  {
    ArrivalsAreDelivered(trace, steps, n, i, w);
    assert trace[i + 1] == Apply(trace[i], n, steps[i]);
  }

  /** A worker has consumed, of each source of its queue, the accepted arrivals from the first on, and
      nothing of other sources. */
  lemma SourcesAreDelivered(trace: seq<System>, steps: seq<Step>, n: nat, i: nat, w: nat, ip: uint32)
    requires Driven(trace, steps, n) && i < |trace| && w < |trace[i].lanes|
    ensures
      var s, l, infos := trace[i], trace[i].lanes[w], Arrivals(steps[..i]);
      && |s.log| <= |infos|
      && var taken := Taken(infos, Fates(s.log), |s.lanes|, w);
      && |l.done| <= |taken|
      && (if w == SelQue(ip, |s.lanes|)
          then From(WordsOf(taken)[..|l.done|], ip) <= WordsOf(TakenFrom(infos, Fates(s.log), ip))
          else From(WordsOf(taken)[..|l.done|], ip) == [])
  {
    DrivenIsExecution(trace, steps, n);
    SourceConsumedInOrder(trace, n, i, w, ip);
    ArrivalsAreHandled(trace, steps, n, i);
    AcceptedAreTaken(trace[i].log, Arrivals(steps[..i]), |trace[i].lanes|, w);
    AcceptedFromAreTaken(trace[i].log, Arrivals(steps[..i]), ip);
  }

  // ---------------------------------------------------------------- a thread on its own

  lemma WorkerStaysShaped(l: Lane, n: nat)
    requires Shaped(l, n)
    ensures Shaped(WorkerStep(l, n), n)
  {
  }

  /** `k` steps of a worker without interference. */
  function WorkerRuns(l: Lane, n: nat, k: nat): (r: Lane)
    requires Shaped(l, n)
    ensures Shaped(r, n)
    decreases k
  {
    if k == 0 then l
    else
      WorkerStaysShaped(l, n);
      WorkerRuns(WorkerStep(l, n), n, k - 1)
  }

  lemma RunsOn(l: Lane, n: nat, k: nat, m: Lane, r: Lane)
    requires Shaped(l, n) && k > 0 && m == WorkerStep(l, n) && Shaped(m, n) && r == WorkerRuns(m, n, k - 1)
    ensures WorkerRuns(l, n, k) == r
  {
  }

  /** A worker whose queue is not empty takes up the front block in five steps. */
  lemma WorkerTakesUp(l: Lane, n: nat)
    requires Shaped(l, n) && l.pc.EmptyLoadFront? && l.front != l.tail
    ensures WorkerRuns(l, n, 5) == l.(pc := Holding(l.front), got := [])
  {
    var a, b, c := l.(pc := EmptyLoadTail(l.front)), l.(pc := HeadLoadFront), l.(pc := HeadLoadTail(l.front));
    var d, e := l.(pc := HeadAddress), l.(pc := Holding(l.front), got := []);
    RunsOn(d, n, 1, e, e);
    RunsOn(c, n, 2, d, e);
    RunsOn(b, n, 3, c, e);
    RunsOn(a, n, 4, b, e);
    RunsOn(l, n, 5, a, e);
  }

  /** The lane behind a pop. */
  function Popped(l: Lane, n: nat): Lane
    requires Shaped(l, n)
  {
    Lane((l.front + 1) % n, l.tail, l.blocks[l.front := l.blocks[l.front].(status := 0, dataLen := 0)],
         EmptyLoadFront, [], l.done + [l.got])
  }

  /** The front block with its length and its status cleared. */
  function Wiped(l: Lane, n: nat): (blocks: seq<Cell>)
    requires Shaped(l, n)
    ensures |blocks| == n && forall k | 0 <= k < n :: |blocks[k].words| == INFO_WORDS
  {
    l.blocks[l.front := l.blocks[l.front].(status := 0, dataLen := 0)]
  }

  lemma WorkerMovesOn(l: Lane, n: nat)
    requires Shaped(l, n) && l.pc == PopReload
    ensures WorkerRuns(l, n, 2) == Lane((l.front + 1) % n, l.tail, l.blocks, EmptyLoadFront, [], l.done + [l.got])
  {
    NextIsModulo(l.front, n);
    var g, r := l.(pc := PopStore(l.front)), WorkerRuns(l, n, 2);
    RunsOn(g, n, 1, WorkerStep(g, n), WorkerStep(g, n));
    RunsOn(l, n, 2, g, WorkerStep(g, n));
  }

  lemma WorkerWipes(l: Lane, n: nat)
    requires Shaped(l, n) && l.pc == ClearLength(l.front)
    ensures WorkerRuns(l, n, 4) == Popped(l, n)
  {
    var e := l.(pc := ClearStatus(l.front), blocks := l.blocks[l.front := l.blocks[l.front].(dataLen := 0)]);
    var f, r := l.(pc := PopReload, blocks := Wiped(l, n)), Popped(l, n);
    assert e.blocks[l.front := e.blocks[l.front].(status := 0)] == Wiped(l, n);
    WorkerMovesOn(f, n);
    RunsOn(e, n, 3, f, r);
    RunsOn(l, n, 4, e, r);
  }

  /** It gives the block up in eight more, as que_obj_pop does without threads, and looks for the next. */
  lemma WorkerGivesUp(l: Lane, n: nat)
    requires Shaped(l, n) && l.pc == Holding(l.front) && l.front != l.tail
    ensures WorkerRuns(l, n, 8) == Popped(l, n)
  {
    var a, b, c := l.(pc := PopLoadFront), l.(pc := PopLoadTail(l.front)), l.(pc := PopAddress);
    var d, r := l.(pc := ClearLength(l.front)), Popped(l, n);
    WorkerWipes(d, n);
    RunsOn(c, n, 5, d, r);
    RunsOn(b, n, 6, c, r);
    RunsOn(a, n, 7, b, r);
    RunsOn(l, n, 8, a, r);
  }

  /** `k` steps of the access thread without interference. */
  function AccessRuns(l: Lane, a: Access, n: nat, k: nat): (r: (Lane, Access))
    requires Shaped(l, n) && AccessShaped(a, n)
    ensures Shaped(r.0, n) && AccessShaped(r.1, n)
    decreases k
  {
    if k == 0 then (l, a)
    else
      var (m, b) := AccessStep(l, a, n);
      AccessRuns(m, b, n, k - 1)
  }

  lemma AccessRunsOn(l: Lane, a: Access, n: nat, k: nat, m: Lane, b: Access, r: (Lane, Access))
    requires Shaped(l, n) && AccessShaped(a, n) && k > 0 && (m, b) == AccessStep(l, a, n)
    requires Shaped(m, n) && AccessShaped(b, n) && r == AccessRuns(m, b, n, k - 1)
    ensures AccessRuns(l, a, n, k) == r
  {
  }

  /** With the event copied and its length set, four steps publish it, or two give it up if the queue is
      full. */
  lemma AccessAdvances(l: Lane, a: Access, n: nat)
    requires Shaped(l, n) && a.pc.FullLoadFront?
    ensures (l.tail + 1) % n == l.front ==> AccessRuns(l, a, n, 2) == (l, a.(pc := Idle))
    ensures (l.tail + 1) % n != l.front ==>
              AccessRuns(l, a, n, 4) == (l.(tail := (l.tail + 1) % n), a.(pc := Idle))
  {
    NextIsModulo(l.tail, n);
    var b := a.(pc := FullLoadTail(l.front));
    if (l.tail + 1) % n == l.front {
      var r := (l, a.(pc := Idle));
      AccessRunsOn(l, b, n, 1, l, r.1, r);
      AccessRunsOn(l, a, n, 2, l, b, r);
    } else {
      var c, d := a.(pc := MoveLoadTail), a.(pc := MoveStore(l.tail));
      var r := (l.(tail := (l.tail + 1) % n), a.(pc := Idle));
      AccessRunsOn(l, d, n, 1, r.0, r.1, r);
      AccessRunsOn(l, c, n, 2, l, d, r);
      AccessRunsOn(l, b, n, 3, l, c, r);
      AccessRunsOn(l, a, n, 4, l, b, r);
    }
  }

  /** The tail block with an event in it. */
  function Filled(l: Lane, n: nat, ev: Event): Lane
    requires Shaped(l, n)
  {
    l.(blocks := l.blocks[l.tail := l.blocks[l.tail].(words := ev, dataLen := 12)])
  }

  lemma LengthIsSet(l: Lane, a: Access, n: nat)
    requires Shaped(l, n) && a.pc == SetLength(l.tail) && l.blocks[l.tail].words == a.ev
    ensures AccessRuns(l, a, n, 1) == (Filled(l, n, a.ev), a.(pc := FullLoadFront))
  {
    var r := (Filled(l, n, a.ev), a.(pc := FullLoadFront));
    AccessRunsOn(l, a, n, 1, r.0, r.1, r);
  }

  /** The fields that are still to be copied, and the length. */
  lemma {:induction false} CopyGoesOn(l: Lane, a: Access, n: nat, k: nat)
    requires Shaped(l, n) && k < 4 && a.pc == Copy(l.tail, k) && l.blocks[l.tail].words[..k] == a.ev[..k]
    ensures AccessRuns(l, a, n, 5 - k) == (Filled(l, n, a.ev), a.(pc := FullLoadFront))
    decreases 4 - k
  {
    var (m, b) := AccessStep(l, a, n);
    var r := (Filled(l, n, a.ev), a.(pc := FullLoadFront));
    assert m.blocks[m.tail].words[..k + 1] == a.ev[..k] + [a.ev[k]] == a.ev[..k + 1];
    assert Filled(m, n, a.ev).blocks == r.0.blocks;
    if k < 3 {
      CopyGoesOn(m, b, n, k + 1);
    } else {
      LengthIsSet(m, b, n);
    }
    AccessRunsOn(l, a, n, 5 - k, m, b, r);
  }

  /** From the choice of the queue six steps copy the event into the tail block and set its length. */
  lemma AccessFills(l: Lane, a: Access, n: nat)
    requires Shaped(l, n) && a.pc.NextFreeBlock?
    ensures AccessRuns(l, a, n, 6) == (Filled(l, n, a.ev), a.(pc := FullLoadFront))
  {
    var b, r := a.(pc := Copy(l.tail, 0)), (Filled(l, n, a.ev), a.(pc := FullLoadFront));
    CopyGoesOn(l, b, n, 0);
    AccessRunsOn(l, a, n, 6, l, b, r);
  }
}
