/** The sample pool of perf_mon.c: a linked list that grows behind its last node, a cursor that
    perf_mon_here moves on at every end of a measurement, and perf_statis, which reports the finished
    samples and puts the cursor back. */
module PerfMon {
  import opened Common

  const ST_START: bv8 := 1
  const ST_END: bv8 := 2
  const DFT_PRESET_TIMES := 50000

  /** A measurement: when it began and when it ended. */
  datatype Pair = Pair(tb: int, te: int)

  datatype Slot = Slot(tb: int, te: int, status: bv8)

  /** The pool as a value: the nodes in list order, and where the cursor stands. */
  datatype Pool = Pool(slots: seq<Slot>, cur: nat)

  const UNUSED := Slot(0, 0, 0)

  // ---------------------------------------------------------------- what the operations do

  function Begun(s: Slot, t: int): Slot {
    s.(tb := t, status := s.status | ST_START)
  }

  function Ended(s: Slot, t: int): Slot {
    s.(te := t, status := s.status | ST_END)
  }

  function Begin(p: Pool, t: int): Pool
    requires p.cur < |p.slots|
  {
    p.(slots := p.slots[p.cur := Begun(p.slots[p.cur], t)])
  }

  function Finish(p: Pool, t: int): (r: Pool)
    requires p.cur < |p.slots|
    ensures r.cur < |r.slots| && |p.slots| <= |r.slots|
  {
    var slots := p.slots[p.cur := Ended(p.slots[p.cur], t)];
    var room := if p.cur + 1 < |slots| then slots else slots + seq(|slots| / 2 + 1, _ => UNUSED);
    Pool(room, p.cur + 1)
  }

  function Cleared(s: Slot): Slot {
    s.(status := 0)
  }

  function ClearedTo(slots: seq<Slot>, k: nat): (r: seq<Slot>)
    requires k <= |slots|
    ensures |r| == |slots|
  {
    seq(|slots|, i requires 0 <= i < |slots| => if i < k then Cleared(slots[i]) else slots[i])
  }

  /** The samples that have both a beginning and an end. */
  function Complete(slots: seq<Slot>): seq<Pair> {
    if slots == [] then []
    else
      var s := slots[|slots| - 1];
      Complete(slots[..|slots| - 1]) + if s.status == 3 then [Pair(s.tb, s.te)] else []
  }

  /** The walk of perf_statis stops in front of the cursor; when the cursor stands on the first node it
      is nobody's successor, and the walk goes through the whole list. */
  function Walked(p: Pool): (n: nat)
    requires p.cur < |p.slots|
    ensures n <= |p.slots|
  {
    if p.cur == 0 then |p.slots| else p.cur
  }

  function Reported(p: Pool): seq<Pair>
    requires p.cur < |p.slots|
  {
    Complete(p.slots[..Walked(p)])
  }

  function Dumped(p: Pool): (r: Pool)
    requires p.cur < |p.slots|
    ensures r.cur < |r.slots|
  {
    Pool(ClearedTo(p.slots, Walked(p)), 0)
  }

  // ---------------------------------------------------------------- what a run should report

  datatype Event = Start(t: int) | End(t: int) | Dump

  /** A measurement in progress; Lost after a dump in the middle of it. */
  datatype Open = NoneOpen | Opened(tb: int) | Lost

  /** What is open and what was completed since the last dump, from the events alone.  A dump in the
      middle of a measurement leaves its node marked as begun: `marked` are those nodes, counted from
      the first, and `pos` counts the ends since the last dump.  An end without a beginning that meets
      a marked node spoils the next report. */
  datatype Log = Log(open: Open, done: seq<Pair>, pos: nat, marked: set<nat>, spoiled: bool)

  const NEW_LOG := Log(NoneOpen, [], 0, {}, false)

  function Note(g: Log, e: Event): Log {
    match e
    case Start(t) => g.(open := Opened(t))
    case End(t) =>
      g.(open := NoneOpen, pos := g.pos + 1,
         done := if g.open.Opened? then g.done + [Pair(g.open.tb, t)] else g.done,
         spoiled := g.spoiled || (g.open.NoneOpen? && g.pos in g.marked))
    case Dump =>
      Log(if g.open.NoneOpen? then NoneOpen else Lost, [], 0, StillMarked(g), false)
  }

  /** A dump clears the nodes it walks over. */
  function StillMarked(g: Log): set<nat> {
    if g.pos == 0 then {}
    else (set i | i in g.marked && i >= g.pos) + if g.open.Opened? then {g.pos} else {}
  }

  /** No dump comes behind a spoiled sample. */
  predicate Clean(g: Log, events: seq<Event>)
    decreases |events|
  {
    events == [] || ((events[0].Dump? ==> !g.spoiled) && Clean(Note(g, events[0]), events[1..]))
  }

  /** Each dump should report what was begun and ended since the dump before it. */
  function Expected(g: Log, events: seq<Event>): seq<seq<Pair>>
    decreases |events|
  {
    if events == [] then []
    else (if events[0].Dump? then [g.done] else []) + Expected(Note(g, events[0]), events[1..])
  }

  function After(p: Pool, e: Event): (r: Pool)
    requires p.cur < |p.slots|
    ensures r.cur < |r.slots|
  {
    match e
    case Start(t) => Begin(p, t)
    case End(t) => Finish(p, t)
    case Dump => Dumped(p)
  }

  function OneReport(p: Pool, e: Event): seq<seq<Pair>>
    requires p.cur < |p.slots|
  {
    if e.Dump? then [Reported(p)] else []
  }

  /** The reports of a run. */
  function Reports(p: Pool, events: seq<Event>): seq<seq<Pair>>
    requires p.cur < |p.slots|
    decreases |events|
  {
    if events == [] then []
    else OneReport(p, events[0]) + Reports(After(p, events[0]), events[1..])
  }

  // ---------------------------------------------------------------- the reports are those

  /** The nodes from the cursor on are as the log says. */
  ghost predicate Ahead(p: Pool, g: Log) {
    && p.cur == g.pos < |p.slots|
    && (forall i | p.cur < i < |p.slots| :: p.slots[i].status == if i in g.marked then 1 else 0)
    && (forall i | i in g.marked :: i < |p.slots|)
    && match g.open
       case NoneOpen => p.slots[p.cur].status == if p.cur in g.marked then 1 else 0
       case Opened(tb) => p.slots[p.cur].status == 1 && p.slots[p.cur].tb == tb
       case Lost => p.cur == 0 && p.slots[0].status == 0
  }

  /** The nodes behind the cursor hold what was completed, and more if they are spoiled. */
  ghost predicate Behind(p: Pool, g: Log) {
    && p.cur <= |p.slots|
    && if g.spoiled then |Complete(p.slots[..p.cur])| > |g.done| else Complete(p.slots[..p.cur]) == g.done
  }

  lemma {:induction false} NothingComplete(slots: seq<Slot>)
    requires forall i | 0 <= i < |slots| :: slots[i].status != 3
    ensures Complete(slots) == []
  {
    if slots != [] {
      NothingComplete(slots[..|slots| - 1]);
    }
  }

  lemma Bits()
    ensures 0 as bv8 | ST_START == 1 && 1 as bv8 | ST_START == 1 && 0 as bv8 | ST_END == 2 && 1 as bv8 | ST_END == 3
  {
  }

  lemma StartIsTracked(p: Pool, g: Log, t: int)
    requires Ahead(p, g) && Behind(p, g)
    ensures Ahead(Begin(p, t), Note(g, Start(t))) && Behind(Begin(p, t), Note(g, Start(t)))
  {
    Bits();
    assert Begin(p, t).slots[..p.cur] == p.slots[..p.cur];
  }

  lemma EndIsAhead(p: Pool, g: Log, t: int)
    requires Ahead(p, g)
    ensures Ahead(Finish(p, t), Note(g, End(t)))
  {
    var q := Finish(p, t);
    forall i | p.cur < i < |q.slots|
      ensures q.slots[i].status == if i in g.marked then 1 else 0
    {
      assert i < |p.slots| ==> q.slots[i] == p.slots[i];
    }
  }

  lemma EndIsBehind(p: Pool, g: Log, t: int)
    requires Ahead(p, g) && Behind(p, g)
    ensures Behind(Finish(p, t), Note(g, End(t)))
  {
    var q := Finish(p, t);
    Bits();
    assert q.slots[..q.cur][..p.cur] == p.slots[..p.cur];
  }

  lemma DumpIsTracked(p: Pool, g: Log)
    requires Ahead(p, g) && Behind(p, g)
    ensures Reported(p) == g.done <==> !g.spoiled
    ensures Ahead(Dumped(p), Note(g, Dump)) && Behind(Dumped(p), Note(g, Dump))
  {
    var q := Dumped(p);
    assert q.slots[..q.cur] == [];
    if p.cur == 0 {
      assert p.slots[..Walked(p)] == p.slots;
      NothingComplete(p.slots);
    }
  }

  lemma SameHead<T>(x: T, y: T, a: seq<T>, b: seq<T>)
    ensures [x] + a == [y] + b <==> x == y && a == b
  {
    if [x] + a == [y] + b {
      assert x == ([x] + a)[0] && y == ([y] + b)[0];
      assert a == ([x] + a)[1..] && b == ([y] + b)[1..];
    }
  }

  /** The main result: whatever mixture of starts, ends and dumps, each dump reports the measurements
      begun and ended since the dump before it, in order, exactly when the run is clean. */
  lemma {:induction false} EachDumpReportsItsOwn(p: Pool, g: Log, events: seq<Event>)
    requires Ahead(p, g) && Behind(p, g)
    ensures Reports(p, events) == Expected(g, events) <==> Clean(g, events)
    decreases |events|
  {
    if events != [] {
      var q, h, rest := After(p, events[0]), Note(g, events[0]), events[1..];
      match events[0] {
        case Start(t) =>
          StartIsTracked(p, g, t);
        case End(t) =>
          EndIsAhead(p, g, t);
          EndIsBehind(p, g, t);
        case Dump =>
          DumpIsTracked(p, g);
          SameHead(Reported(p), g.done, Reports(q, rest), Expected(h, rest));
      }
      assert !events[0].Dump? ==> Reports(p, events) == Reports(q, rest) && Expected(g, events) == Expected(h, rest);
      EachDumpReportsItsOwn(q, h, rest);
    }
  }

  function NewPool(n: nat): Pool {
    Pool(seq(n, _ => UNUSED), 0)
  }

  lemma EachRunFromTheStart(n: nat, events: seq<Event>)
    requires n > 0
    ensures Reports(NewPool(n), events) == Expected(NEW_LOG, events) <==> Clean(NEW_LOG, events)
  {
    EachDumpReportsItsOwn(NewPool(n), NEW_LOG, events);
  }

  // ---------------------------------------------------------------- which runs are clean

  /** Every end has its start; dumps may come anywhere. */
  predicate Paired(open: bool, events: seq<Event>)
    decreases |events|
  {
    events == [] ||
    match events[0]
    case Start(_) => !open && Paired(true, events[1..])
    case End(_) => open && Paired(false, events[1..])
    case Dump => Paired(open, events[1..])
  }

  lemma {:induction false} PairedRunsAreClean(g: Log, events: seq<Event>)
    requires Paired(!g.open.NoneOpen?, events) && !g.spoiled
    ensures Clean(g, events)
    decreases |events|
  {
    if events != [] {
      PairedRunsAreClean(Note(g, events[0]), events[1..]);
    }
  }

  /** Starts and ends in any order, but no dump between a start and the next end. */
  predicate Quiet(open: bool, events: seq<Event>)
    decreases |events|
  {
    events == [] ||
    match events[0]
    case Start(_) => Quiet(true, events[1..])
    case End(_) => Quiet(false, events[1..])
    case Dump => !open && Quiet(open, events[1..])
  }

  lemma {:induction false} QuietRunsAreClean(g: Log, events: seq<Event>)
    requires Quiet(!g.open.NoneOpen?, events) && !g.spoiled && g.marked == {}
    ensures Clean(g, events)
    decreases |events|
  {
    if events != [] {
      QuietRunsAreClean(Note(g, events[0]), events[1..]);
    }
  }

  /** The events of some measurements, one after the other. */
  function EventsOf(pairs: seq<Pair>): seq<Event> {
    if pairs == [] then [] else [Start(pairs[0].tb), End(pairs[0].te)] + EventsOf(pairs[1..])
  }

  /** What a run should report; seen through only where LookInside is mentioned. */
  ghost predicate Expects(g: Log, events: seq<Event>, r: seq<seq<Pair>>) {
    forall x: int :: LookInside(x) ==> Expected(g, events) == r
  }

  lemma {:induction false} PairsAreNoted(g: Log, pairs: seq<Pair>, rest: seq<Event>, last: Log, r: seq<seq<Pair>>)
    requires g.open.NoneOpen? && !g.spoiled && g.marked == {}
    requires last == g.(done := g.done + pairs, pos := g.pos + |pairs|) && Expects(last, rest, r)
    ensures Expects(g, EventsOf(pairs) + rest, r)
    decreases |pairs|
  {
    if pairs == [] {
      assert EventsOf(pairs) + rest == rest && g.done + pairs == g.done;
    } else {
      var p, others, h := pairs[0], pairs[1..], g.(done := g.done + [pairs[0]], pos := g.pos + 1);
      assert g.done + [p] + others == g.done + pairs;
      PairsAreNoted(h, others, rest, last, r);
      OnePairIsNoted(g, p, EventsOf(others) + rest, h, r);
      EventsJoin(pairs, p, others, rest);
    }
  }

  lemma EventsJoin(pairs: seq<Pair>, p: Pair, others: seq<Pair>, rest: seq<Event>)
    requires pairs != [] && p == pairs[0] && others == pairs[1..]
    ensures EventsOf(pairs) + rest == [Start(p.tb)] + ([End(p.te)] + (EventsOf(others) + rest))
  {
  }

  lemma OnePairIsNoted(g: Log, p: Pair, more: seq<Event>, h: Log, r: seq<seq<Pair>>)
    requires g.open.NoneOpen? && !g.spoiled && g.marked == {} && h == g.(done := g.done + [p], pos := g.pos + 1)
    requires Expects(h, more, r)
    ensures Expects(g, [Start(p.tb)] + ([End(p.te)] + more), r)
  {
    assert LookInside(0);
    NextEvent(g, Start(p.tb), [End(p.te)] + more);
    NextEvent(Note(g, Start(p.tb)), End(p.te), more);
    assert Note(Note(g, Start(p.tb)), End(p.te)) == h;
  }

  lemma {:induction false} PairsArePaired(pairs: seq<Pair>, rest: seq<Event>)
    requires Paired(false, rest)
    ensures Paired(false, EventsOf(pairs) + rest)
    decreases |pairs|
  {
    if pairs == [] {
      assert EventsOf(pairs) + rest == rest;
    } else {
      var more := EventsOf(pairs[1..]) + rest;
      PairsArePaired(pairs[1..], rest);
      OnePairIsPaired(pairs[0], more);
      assert EventsOf(pairs) + rest == [Start(pairs[0].tb)] + ([End(pairs[0].te)] + more);
    }
  }

  lemma OnePairIsPaired(p: Pair, more: seq<Event>)
    requires Paired(false, more)
    ensures Paired(false, [Start(p.tb)] + ([End(p.te)] + more))
  {
    var second := [End(p.te)] + more;
    assert second[1..] == more && ([Start(p.tb)] + second)[1..] == second;
    assert Paired(true, second);
  }

  lemma DumpTellsPairs(pairs: seq<Pair>, rest: seq<Event>)
    ensures Expected(NEW_LOG, EventsOf(pairs) + ([Dump] + rest)) == [pairs] + Expected(NEW_LOG, rest)
  {
    var g := Log(NoneOpen, pairs, |pairs|, {}, false);
    assert [] + pairs == pairs;
    NextEvent(g, Dump, rest);
    assert Note(g, Dump) == NEW_LOG;
    PairsAreNoted(NEW_LOG, pairs, [Dump] + rest, g, [pairs] + Expected(NEW_LOG, rest));
    assert LookInside(0);
  }

  lemma DumpIsPaired(rest: seq<Event>)
    requires Paired(false, rest)
    ensures Paired(false, [Dump] + rest)
  {
    assert ([Dump] + rest)[1..] == rest;
  }

  /** Any measurements made one after the other are what a dump reports, in their order and with their times,
      and the next dump reports what was made since. */
  lemma MeasurementsComeBack(n: nat, pairs: seq<Pair>, later: seq<Pair>)
    requires n > 0
    ensures Reports(NewPool(n), EventsOf(pairs) + ([Dump] + (EventsOf(later) + ([Dump] + [])))) == [pairs, later]
  {
    var tail := EventsOf(later) + ([Dump] + []);
    DumpIsPaired([]);
    PairsArePaired(later, [Dump] + []);
    DumpIsPaired(tail);
    PairsArePaired(pairs, [Dump] + tail);
    PairedRunsAreClean(NEW_LOG, EventsOf(pairs) + ([Dump] + tail));
    EachRunFromTheStart(n, EventsOf(pairs) + ([Dump] + tail));
    DumpTellsPairs(pairs, tail);
    DumpTellsPairs(later, []);
  }

  const STRAY_END := [Start(1), End(2), Start(3), Dump, End(4), End(5), Dump]

  lemma NextEvent(g: Log, e: Event, rest: seq<Event>)
    ensures Clean(g, [e] + rest) <==> (e.Dump? ==> !g.spoiled) && Clean(Note(g, e), rest)
    ensures Expected(g, [e] + rest) == (if e.Dump? then [g.done] else []) + Expected(Note(g, e), rest)
  {
    assert ([e] + rest)[1..] == rest;
  }

  lemma {:induction false} EventsSplit(g: Log, first: seq<Event>, rest: seq<Event>)
    requires forall i | 0 <= i < |first| :: !first[i].Dump?
    ensures Clean(g, first + rest) <==> Clean(NoteAll(g, first), rest)
    ensures Expected(g, first + rest) == Expected(NoteAll(g, first), rest)
    decreases |first|
  {
    if first == [] {
      assert first + rest == rest;
    } else {
      assert first + rest == [first[0]] + (first[1..] + rest);
      NextEvent(g, first[0], first[1..] + rest);
      EventsSplit(Note(g, first[0]), first[1..], rest);
    }
  }

  function NoteAll(g: Log, events: seq<Event>): Log
    decreases |events|
  {
    if events == [] then g else NoteAll(Note(g, events[0]), events[1..])
  }

  /** Not every run is clean: a stray end completes the beginning that an earlier dump passed over, and
      the second dump reports it, whatever the size of the pool. */
  lemma StrayEndIsReported(n: nat)
    requires n > 0
    ensures !Clean(NEW_LOG, STRAY_END)
    ensures Expected(NEW_LOG, STRAY_END) == [[Pair(1, 2)], []]
    ensures Reports(NewPool(n), STRAY_END) != Expected(NEW_LOG, STRAY_END)
  {
    var a, b := [Start(1), End(2), Start(3)], [End(4), End(5)];
    var g := Log(Opened(3), [Pair(1, 2)], 1, {}, false);
    var h := Log(NoneOpen, [], 2, {1}, true);
    assert NoteAll(NEW_LOG, a) == g;
    assert NoteAll(Note(g, Dump), b) == h;
    assert STRAY_END == a + ([Dump] + (b + ([Dump] + [])));
    EventsSplit(NEW_LOG, a, [Dump] + (b + ([Dump] + [])));
    NextEvent(g, Dump, b + ([Dump] + []));
    EventsSplit(Note(g, Dump), b, [Dump] + []);
    NextEvent(h, Dump, []);
    EachRunFromTheStart(n, STRAY_END);
  }

  // ---------------------------------------------------------------- the linked list

  /** mon_time_t */
  class MonTime {
    var next: MonTime?
    var tb: int
    var te: int
    var status: bv8

    constructor ()
      ensures next == null && tb == 0 && te == 0 && status == 0
    {
      next, tb, te, status := null, 0, 0, 0;
    }

    function AsSlot(): Slot
      reads `tb, `te, `status
    {
      Slot(tb, te, status)
    }
  }

  /** The nodes are all different, each links to the next one, and the last one ends the list; seen
      through only where LookInside is mentioned. */
  ghost predicate Chain(nodes: seq<MonTime>)
    reads nodes`next
  {
    forall x: int :: LookInside(x) ==>
      && (forall i, j | 0 <= i < j < |nodes| :: nodes[i] != nodes[j])
      && (forall i | 0 <= i < |nodes| - 1 :: nodes[i].next == nodes[i + 1])
      && (nodes != [] ==> nodes[|nodes| - 1].next == null)
  }

  lemma NextOf(nodes: seq<MonTime>, i: nat)
    requires Chain(nodes) && i < |nodes|
    ensures nodes[i].next == if i + 1 < |nodes| then nodes[i + 1] else null
    ensures forall j | 0 <= j < |nodes| && nodes[i].next == nodes[j] :: j == i + 1
    ensures forall j | 0 <= j < |nodes| && nodes[i] == nodes[j] :: j == i
  {
    assert LookInside(0);
  }

  /** The nodes hold these samples. */
  ghost predicate Hold(nodes: seq<MonTime>, slots: seq<Slot>)
    reads nodes`tb, nodes`te, nodes`status
  {
    |slots| == |nodes| && forall i | 0 <= i < |nodes| :: nodes[i].AsSlot() == slots[i]
  }

  /** linklist_create: every node but the first is put in behind the first. */
  method LinkListCreate(elemNum: int) returns (head: MonTime?, ghost nodes: seq<MonTime>)
    ensures |nodes| == (if elemNum > 0 then elemNum else 0) && fresh(nodes) && Chain(nodes)
    ensures head == if nodes == [] then null else nodes[0]
    ensures forall i | 0 <= i < |nodes| :: nodes[i].AsSlot() == UNUSED
  {
    head, nodes := null, [];
    assert LookInside(0);
    var i := 0;
    while i < elemNum
      invariant 0 <= i && (if elemNum > 0 then i <= elemNum else i == 0) && |nodes| == i && fresh(nodes) && Chain(nodes)
      invariant head == if nodes == [] then null else nodes[0]
      invariant forall k | 0 <= k < |nodes| :: nodes[k].AsSlot() == UNUSED
    {
      var p1 := new MonTime();
      if head == null {
        head, nodes := p1, [p1];
      } else {
        p1.next := head.next;
        head.next := p1;
        nodes := [nodes[0], p1] + nodes[1..];
      }
      i := i + 1;
    }
  }

  /** A second list is hung behind the first. */
  method Link(last: MonTime, more: MonTime, ghost a: seq<MonTime>, ghost b: seq<MonTime>)
    requires Chain(a) && Chain(b) && a != [] && b != [] && last == a[|a| - 1] && more == b[0]
    requires forall i, j | 0 <= i < |a| && 0 <= j < |b| :: a[i] != b[j]
    modifies last`next
    ensures Chain(a + b)
  {
    assert LookInside(0);
    last.next := more;
  }

  lemma HoldTogether(a: seq<MonTime>, b: seq<MonTime>, slots: seq<Slot>, n: nat)
    requires Hold(a, slots) && |b| == n && forall i | 0 <= i < |b| :: b[i].AsSlot() == UNUSED
    ensures Hold(a + b, slots + seq(n, _ => UNUSED))
  {
  }

  /** mon_point_t */
  class MonPoint {
    var size: nat
    var head: MonTime
    var cur: MonTime
    ghost var nodes: seq<MonTime>
    ghost var pos: nat

    ghost predicate Valid()
      reads this, nodes`next
    {
      && size == |nodes| && pos < |nodes| && Chain(nodes)
      && head == nodes[0] && cur == nodes[pos]
    }

    /** The point is in good order and shows this pool; there is only one pool that it shows. */
    ghost predicate Shows(p: Pool)
      reads this, nodes
    {
      Valid() && pos == p.cur && Hold(nodes, p.slots)
    }

    /** perf_mon_init for one point.  With 0 preset times there is no list to measure in. */
    constructor (presetTimes: int)
      requires presetTimes != 0
      ensures Shows(NewPool(if presetTimes < 0 then 50000 else presetTimes)) && fresh(nodes)
    {
      var n := if presetTimes < 0 then DFT_PRESET_TIMES else presetTimes;
      var first, list := LinkListCreate(n);
      size, head, cur := n, first, first;
      nodes, pos := list, 0;
    }

    /** perf_mon_here, ST_START */
    method StartHere(now: int, ghost p: Pool)
      requires Shows(p)
      modifies cur`tb, cur`status
      ensures Shows(Begin(p, now))
    {
      NextOf(nodes, pos);
      cur.tb := now;
      cur.status := cur.status | ST_START;
      assert cur.AsSlot() == Begun(p.slots[pos], now);
    }

    /** Lines 125 to 126: the sample is ended. */
    method MarkEnd(now: int, ghost p: Pool)
      requires Shows(p)
      modifies cur`te, cur`status
      ensures Shows(p.(slots := p.slots[p.cur := Ended(p.slots[p.cur], now)]))
    {
      NextOf(nodes, pos);
      cur.te := now;
      cur.status := cur.status | ST_END;
      assert cur.AsSlot() == Ended(p.slots[pos], now);
    }

    /** Lines 128 to 129: more nodes behind the last one. */
    method Grow(ghost p: Pool)
      requires Shows(p) && pos == |nodes| - 1
      modifies this`size, this`nodes, cur`next
      ensures Shows(p.(slots := p.slots + seq(|p.slots| / 2 + 1, _ => UNUSED)))
      ensures old(nodes) <= nodes && fresh(nodes[|old(nodes)|..])
    {
      var more, list := LinkListCreate(size / 2 + 1);
      Link(cur, more, nodes, list);
      HoldTogether(nodes, list, p.slots, |p.slots| / 2 + 1);
      assert (nodes + list)[|nodes|..] == list;
      size := size + (size / 2 + 1);
      nodes := nodes + list;
    }

    /** perf_mon_here, ST_END: no node is ever lost, and a longer list only gets more of them. */
    method EndHere(now: int, ghost p: Pool)
      requires Shows(p)
      modifies this, cur
      ensures Shows(Finish(p, now))
      ensures old(nodes) <= nodes && fresh(nodes[|old(nodes)|..])
    {
      ghost var ended := p.slots[p.cur := Ended(p.slots[p.cur], now)];
      MarkEnd(now, p);
      NextOf(nodes, pos);
      if cur.next == null {
        Grow(p.(slots := ended));
      }
      Advance(p.(slots := if pos + 1 < |p.slots| then ended else ended + seq(|p.slots| / 2 + 1, _ => UNUSED)));
    }

    /** Line 131: on to the next node. */
    method Advance(ghost p: Pool)
      requires Shows(p) && pos + 1 < |nodes|
      modifies this`cur, this`pos
      ensures Shows(p.(cur := p.cur + 1))
    {
      NextOf(nodes, pos);
      cur, pos := cur.next, pos + 1;
    }

    /** perf_mon_here */
    method Here(status: int, now: int, ghost p: Pool) returns (r: int)
      requires Shows(p)
      modifies this, cur
      ensures Shows(if status == 1 then Begin(p, now) else if status == 2 then Finish(p, now) else p)
      ensures old(nodes) <= nodes && fresh(nodes[|old(nodes)|..])
      ensures r == if status == 1 || status == 2 then 0 else -1
    {
      if status == 1 {
        StartHere(now, p);
        return 0;
      } else if status == 2 {
        EndHere(now, p);
        return 0;
      }
      return -1;
    }

    /** One step of the walk of perf_statis. */
    method Visit(node: MonTime, ghost k: nat, ghost p: Pool, report: seq<Pair>)
      returns (longer: seq<Pair>, next: MonTime?)
      requires Valid() && k < |nodes| == |p.slots| && node == nodes[k] && report == Complete(p.slots[..k])
      requires Hold(nodes, ClearedTo(p.slots, k))
      modifies node`status
      ensures longer == Complete(p.slots[..k + 1]) && Hold(nodes, ClearedTo(p.slots, k + 1))
      ensures next == (if k + 1 < |nodes| then nodes[k + 1] else null) && (cur == next <==> k + 1 == pos)
    {
      NextOf(nodes, k);
      assert p.slots[..k + 1][..k] == p.slots[..k];
      assert node.AsSlot() == p.slots[k];
      longer := if node.status == 3 then report + [Pair(node.tb, node.te)] else report;
      node.status := 0;
      next := node.next;
    }

    /** The walk of perf_statis. */
    method Walk(ghost p: Pool) returns (report: seq<Pair>)
      requires Shows(p)
      modifies nodes`status
      ensures report == Reported(p) && Hold(nodes, ClearedTo(p.slots, Walked(p)))
    {
      var node: MonTime? := head;
      ghost var k := 0;
      report := [];
      while node != null
        invariant k <= Walked(p) && (pos > 0 ==> k < pos) && node == if k < |nodes| then nodes[k] else null
        invariant report == Complete(p.slots[..k]) && Hold(nodes, ClearedTo(p.slots, k))
        decreases |nodes| - k
      {
        report, node := Visit(node, k, p, report);
        k := k + 1;
        if cur == node {
          break;
        }
      }
    }

    /** perf_statis for one point. */
    method Statis(ghost p: Pool) returns (report: seq<Pair>)
      requires Shows(p)
      modifies this`cur, this`pos, nodes`status
      ensures report == Reported(p) && Shows(Dumped(p))
    {
      report := Walk(p);
      cur, pos := head, 0;
    }

    /** One event; `q` is the pool behind it. */
    method Perform(e: Event, ghost p: Pool, ghost q: Pool) returns (report: seq<seq<Pair>>)
      requires Shows(p) && q == After(p, e)
      modifies this, nodes
      ensures Shows(q) && report == OneReport(p, e)
      ensures forall k | 0 <= k < |nodes| :: nodes[k] in old(nodes) || fresh(nodes[k])
    {
      report := [];
      match e {
        case Start(t) =>
          StartHere(t, p);
        case End(t) =>
          EndHere(t, p);
          assert forall k | |old(nodes)| <= k < |nodes| :: nodes[k] == nodes[|old(nodes)|..][k - |old(nodes)|];
        case Dump =>
          var r := Statis(p);
          report := [r];
      }
    }
  }

  lemma ReportsStep(p: Pool, rest: seq<Event>, done: seq<seq<Pair>>)
    requires p.cur < |p.slots| && rest != []
    ensures done + Reports(p, rest) == (done + OneReport(p, rest[0])) + Reports(After(p, rest[0]), rest[1..])
  {
  }

  /** A whole run on one point, from perf_mon_init on: the reports of the dumps are the expected ones
      exactly when the run is clean. */
  method Measure(presetTimes: int, events: seq<Event>) returns (reports: seq<seq<Pair>>)
    requires presetTimes != 0
    ensures reports == Expected(NEW_LOG, events) <==> Clean(NEW_LOG, events)
  {
    ghost var n := if presetTimes < 0 then 50000 else presetTimes;
    ghost var p, rest, total := NewPool(n), events, Reports(NewPool(n), events);
    var point := new MonPoint(presetTimes);
    reports := [];
    for i := 0 to |events|
      invariant point.Shows(p) && fresh(point) && forall k | 0 <= k < |point.nodes| :: fresh(point.nodes[k])
      invariant rest == events[i..] && total == reports + Reports(p, rest)
    {
      ghost var q := After(p, events[i]);
      ReportsStep(p, rest, reports);
      var report := point.Perform(events[i], p, q);
      reports, p, rest := reports + report, q, rest[1..];
    }
    EachRunFromTheStart(n, events);
  }
}
