/**
 libmqtt/MQTTLinux.c: the one-slot queue that carries replies from the reader thread to the callers.
 The check and the write of Enqueue are separate critical sections, and so are the read and the clearing of
 Dequeue; a move below is one of these sections or one semaphore operation. A semaphore wait may return
 at any time, so every interleaving of the threads is a sequence of moves.
 */
module ReplyQueue {
  import opened Options

  /** A packet type; zero stands for the empty slot. */
  type Item = x: nat | 0 < x < 0x10000 witness 1

  /** Where a thread is inside Enqueue. */
  datatype Producer = Outside
                    | Checking(item: Item) | Waiting(item: Item) | Writing(item: Item) | Signalling(item: Item)

  /** Where a thread is inside Dequeue, with the local copies of `*item` and `rc`. */
  datatype Consumer = Away | Reading | TimedWaiting | Clearing(item: nat, rc: int) | Returning(item: nat, rc: int)

  /** What happens to the slot, in the order of the critical sections. */
  datatype Event = Put(item: Item) | Get(got: nat) | Fail(rc: int, lost: seq<Item>)

  datatype Result = Result(item: nat, rc: int)

  datatype State = State(
    slot: nat,
    producers: seq<Producer>,
    consumers: seq<Consumer>,
    trace: seq<Event>,        // what was done to the slot
    enqueued: seq<Item>,      // the items of the completed Enqueue calls
    dequeued: seq<Result>)    // the results of the completed Dequeue calls

  /**
   A move of one thread: `item` is what a thread outside Enqueue comes with, `rc` is what a semaphore wait
   of Dequeue returns; the other moves do not look at them.
   */
  datatype Move = Produce(i: nat, item: Item) | Consume(i: nat, rc: int)

  function Content(slot: nat): seq<Item> {
    if 0 < slot < 0x10000 then [slot] else []
  }

  function ProducerStep(s: State, i: nat, item: Item): State
    requires i < |s.producers|
  {
    match s.producers[i]
    case Outside => s.(producers := s.producers[i := Checking(item)])
    case Checking(x) => s.(producers := s.producers[i := if s.slot != 0 then Waiting(x) else Writing(x)])
    case Waiting(x) => s.(producers := s.producers[i := Checking(x)])
    case Writing(x) => s.(slot := x, producers := s.producers[i := Signalling(x)], trace := s.trace + [Put(x)])
    case Signalling(x) => s.(producers := s.producers[i := Outside], enqueued := s.enqueued + [x])
  }

  function ConsumerStep(s: State, i: nat, rc: int): State
    requires i < |s.consumers|
  {
    match s.consumers[i]
    case Away => s.(consumers := s.consumers[i := Reading])
    case Reading => s.(consumers := s.consumers[i := if s.slot == 0 then TimedWaiting else Clearing(s.slot, 0)])
    case TimedWaiting => s.(consumers := s.consumers[i := if rc == 0 then Reading else Clearing(0, rc)])
    case Clearing(x, r) =>
      s.(slot := 0, consumers := s.consumers[i := Returning(x, r)],
         trace := s.trace + [if r == 0 then Get(x) else Fail(r, Content(s.slot))])
    case Returning(x, r) => s.(consumers := s.consumers[i := Away], dequeued := s.dequeued + [Result(x, r)])
  }

  /** One move; a move of a thread that does not exist changes nothing. */
  function Next(s: State, m: Move): State {
    match m
    case Produce(i, item) => if i < |s.producers| then ProducerStep(s, i, item) else s
    case Consume(i, rc) => if i < |s.consumers| then ConsumerStep(s, i, rc) else s
  }

  /** The state after the moves, from an empty slot and threads that are outside the queue. */
  function Run(producers: nat, consumers: nat, moves: seq<Move>): State {
    if moves == [] then State(0, seq(producers, i => Outside), seq(consumers, i => Away), [], [], [])
    else Next(Run(producers, consumers, moves[..|moves| - 1]), moves[|moves| - 1])
  }

  // ---------- the specification: an atomic one-place buffer ----------

  /** What an atomic one-place buffer holds after the events; None if it does not allow them. */
  function Buffer(events: seq<Event>): Option<seq<Item>> {
    if events == [] then Some([])
    else match Buffer(events[..|events| - 1])
      case None => None
      case Some(held) =>
        match events[|events| - 1]
        case Put(x) => if held == [] then Some([x]) else None
        case Get(x) => if held != [] && held[0] == x then Some([]) else None
        case Fail(rc, lost) => if rc != 0 && lost == held then Some([]) else None
  }

  /** The items put, in order. */
  function Written(events: seq<Event>): seq<Item> {
    if events == [] then []
    else
      var e := events[|events| - 1];
      Written(events[..|events| - 1]) + (if e.Put? then [e.item] else [])
  }

  /** The items that left the slot, taken or lost, in order. */
  function Removed(events: seq<Event>): seq<nat> {
    if events == [] then []
    else
      var e := events[|events| - 1];
      Removed(events[..|events| - 1]) + (match e case Put(_) => [] case Get(x) => [x] case Fail(_, lost) => lost)
  }

  /** What the removing events return to their callers. */
  function Results(events: seq<Event>): seq<Result> {
    if events == [] then []
    else
      var e := events[|events| - 1];
      Results(events[..|events| - 1])
        + (match e case Put(_) => [] case Get(x) => [Result(x, 0)] case Fail(rc, _) => [Result(0, rc)])
  }

  function Failures(events: seq<Event>): nat {
    if events == [] then 0
    else Failures(events[..|events| - 1]) + (if events[|events| - 1].Fail? then 1 else 0)
  }

  // ---------- every run of one producer and one consumer ----------

  /** The item of an Enqueue that has written and not yet returned. */
  function PendingItem(p: Producer): seq<Item> {
    if p.Signalling? then [p.item] else []
  }

  /** The result of a Dequeue that has cleared the slot and not yet returned. */
  function PendingResult(c: Consumer): seq<Result> {
    if c.Returning? then [Result(c.item, c.rc)] else []
  }

  ghost predicate Inv(s: State) {
    && |s.producers| == 1 && |s.consumers| == 1
    && s.slot < 0x10000
    && Buffer(s.trace) == Some(Content(s.slot))
    && Written(s.trace) == s.enqueued + PendingItem(s.producers[0])
    && Results(s.trace) == s.dequeued + PendingResult(s.consumers[0])
    && (s.producers[0].Writing? ==> s.slot == 0)
    && (s.consumers[0].Clearing? ==>
          if s.consumers[0].rc == 0 then s.consumers[0].item == s.slot != 0 else s.consumers[0].item == 0)
  }

  lemma TraceJoins(events: seq<Event>, e: Event)
    ensures Written(events + [e]) == Written(events) + (if e.Put? then [e.item] else [])
    ensures Lost(events + [e]) == Lost(events) + (if e.Fail? then e.lost else [])
    ensures Removed(events + [e]) ==
            Removed(events) + (match e case Put(_) => [] case Get(x) => [x] case Fail(_, lost) => lost)
  {
    assert (events + [e])[..|events|] == events;
  }

  lemma BufferJoins(events: seq<Event>, e: Event)
    requires Buffer(events).Some?
    ensures Buffer(events + [e]) ==
            match e
            case Put(x) => if Buffer(events).value == [] then Some([x]) else None
            case Get(x) => if Buffer(events).value != [] && Buffer(events).value[0] == x then Some([]) else None
            case Fail(rc, lost) => if rc != 0 && lost == Buffer(events).value then Some([]) else None
    ensures Results(events + [e]) ==
            Results(events)
              + match e case Put(_) => [] case Get(x) => [Result(x, 0)] case Fail(rc, _) => [Result(0, rc)]
  {
    assert (events + [e])[..|events|] == events;
  }

  lemma ProducerKeeps(s: State, item: Item)
    requires Inv(s)
    ensures Inv(ProducerStep(s, 0, item))
  {
    hide Buffer, Written, Results;
    if s.producers[0].Writing? {
      TraceJoins(s.trace, Put(s.producers[0].item));
      BufferJoins(s.trace, Put(s.producers[0].item));
    }
  }

  lemma ClearingKeeps(s: State, rc: int)
    requires Inv(s) && s.consumers[0].Clearing?
    ensures Inv(ConsumerStep(s, 0, rc))
  {
    var (x, r) := (s.consumers[0].item, s.consumers[0].rc);
    var e := if r == 0 then Get(x) else Fail(r, Content(s.slot));
    TraceJoins(s.trace, e);
    BufferJoins(s.trace, e);
    hide Buffer, Written, Results, Removed, Lost;
  }

  lemma ConsumerKeeps(s: State, rc: int)
    requires Inv(s)
    ensures Inv(ConsumerStep(s, 0, rc))
  {
    hide Buffer, Written, Results, Content;
    if s.consumers[0].Clearing? {
      ClearingKeeps(s, rc);
    }
  }

  lemma {:induction false} RunKeeps(moves: seq<Move>)
    ensures Inv(Run(1, 1, moves))
  {
    if moves == [] {
    } else {
      var s := Run(1, 1, moves[..|moves| - 1]);
      RunKeeps(moves[..|moves| - 1]);
      match moves[|moves| - 1] {
        case Produce(i, item) => if i == 0 { ProducerKeeps(s, item); }
        case Consume(i, rc) => if i == 0 { ConsumerKeeps(s, rc); }
      }
    }
  }

  /**
   The queue refines the atomic buffer: the buffer allows what the threads did to the slot, and the calls
   return what the buffer would have returned to them, each call taking effect between its entry and its return.
   */
  lemma RefinesBuffer(moves: seq<Move>)
    ensures var s := Run(1, 1, moves);
            && |s.producers| == |s.consumers| == 1
            && Buffer(s.trace) == Some(Content(s.slot))
            && Written(s.trace) == s.enqueued + PendingItem(s.producers[0])
            && Results(s.trace) == s.dequeued + PendingResult(s.consumers[0])
  {
    RunKeeps(moves);
  }

  /** The buffer loses nothing: what was put is what was removed followed by what is held. */
  lemma {:induction false} BufferConserves(events: seq<Event>)
    requires Buffer(events).Some?
    ensures Written(events) == Removed(events) + Buffer(events).value
    ensures |Buffer(events).value| <= 1
  {
    if events != [] {
      BufferConserves(events[..|events| - 1]);
    }
  }

  /** The items written are, in order, the items that left the slot and then the item still in it. */
  lemma Conservation(moves: seq<Move>)
    ensures var s := Run(1, 1, moves); Written(s.trace) == Removed(s.trace) + Content(s.slot)
  {
    RunKeeps(moves);
    BufferConserves(Run(1, 1, moves).trace);
  }

  /** The items that successful results carry. */
  function Delivered(results: seq<Result>): seq<nat> {
    if results == [] then []
    else
      var r := results[|results| - 1];
      Delivered(results[..|results| - 1]) + (if r.rc == 0 then [r.item] else [])
  }

  /** The items thrown away by failing results. */
  function Lost(events: seq<Event>): seq<Item> {
    if events == [] then []
    else
      var e := events[|events| - 1];
      Lost(events[..|events| - 1]) + (if e.Fail? then e.lost else [])
  }

  /** `xs` is an interleaving of `ys` and `zs`. */
  ghost predicate Merge(xs: seq<nat>, ys: seq<nat>, zs: seq<nat>)
    decreases |xs|
  {
    if xs == [] then ys == [] && zs == []
    else
      var (x, front) := (xs[|xs| - 1], xs[..|xs| - 1]);
      || (ys != [] && ys[|ys| - 1] == x && Merge(front, ys[..|ys| - 1], zs))
      || (zs != [] && zs[|zs| - 1] == x && Merge(front, ys, zs[..|zs| - 1]))
  }

  lemma ResultsJoin(events: seq<Event>, e: Event)
    requires e.Fail? ==> e.rc != 0
    ensures Delivered(Results(events + [e])) == Delivered(Results(events)) + (if e.Get? then [e.got] else [])
  {
    assert (events + [e])[..|events|] == events;
    var (all, some) := (Results(events + [e]), Results(events));
    if e.Put? {
      assert all == some;
    } else {
      assert all[..|all| - 1] == some;
    }
  }

  lemma MergeLeft(xs: seq<nat>, ys: seq<nat>, zs: seq<nat>, x: nat)
    requires Merge(xs, ys, zs)
    ensures Merge(xs + [x], ys + [x], zs)
  {
    assert (xs + [x])[..|xs|] == xs && (ys + [x])[..|ys|] == ys;
  }

  lemma MergeRight(xs: seq<nat>, ys: seq<nat>, zs: seq<nat>, x: nat)
    requires Merge(xs, ys, zs)
    ensures Merge(xs + [x], ys, zs + [x])
  {
    assert (xs + [x])[..|xs|] == xs && (zs + [x])[..|zs|] == zs;
  }

  lemma {:induction false} DeliveredOrLost(events: seq<Event>)
    requires Buffer(events).Some?
    ensures Merge(Removed(events), Delivered(Results(events)), Lost(events))
    ensures |Lost(events)| <= Failures(events)
  {
    if events != [] {
      var (front, e) := (events[..|events| - 1], events[|events| - 1]);
      assert events == front + [e];
      DeliveredOrLost(front);
      BufferConserves(front);
      TraceJoins(front, e);
      ResultsJoin(front, e);
      hide Merge, Delivered, Removed, Lost, Written, Results;
      var (xs, ys, zs) := (Removed(front), Delivered(Results(front)), Lost(front));
      match e {
        case Put(_) =>
          assert xs + [] == xs && ys + [] == ys && zs + [] == zs;
        case Get(x) =>
          assert zs + [] == zs;
          MergeLeft(xs, ys, zs, x);
        case Fail(rc, lost) =>
          assert ys + [] == ys;
          if lost == [] {
            assert xs + [] == xs && zs + [] == zs;
          } else {
            assert lost == [lost[0]];
            MergeRight(xs, ys, zs, lost[0]);
          }
      }
    }
  }

  /**
   Every removed item went, in order, either to the one Dequeue that returned it or to a Dequeue whose wait
   ended with an error; a failing Dequeue throws away at most one item.
   */
  lemma DeliveredAtMostOnce(moves: seq<Move>)
    ensures var s := Run(1, 1, moves);
            && Merge(Removed(s.trace), Delivered(Results(s.trace)), Lost(s.trace))
            && |Lost(s.trace)| <= Failures(s.trace)
  {
    RunKeeps(moves);
    DeliveredOrLost(Run(1, 1, moves).trace);
  }

  lemma {:induction false} MergeWithNothing(xs: seq<nat>, ys: seq<nat>)
    requires Merge(xs, ys, [])
    ensures xs == ys
  {
    if xs != [] {
      MergeWithNothing(xs[..|xs| - 1], ys[..|ys| - 1]);
      assert xs == xs[..|xs| - 1] + [xs[|xs| - 1]] && ys == ys[..|ys| - 1] + [ys[|ys| - 1]];
    }
  }

  lemma {:induction false} MergeLength(xs: seq<nat>, ys: seq<nat>, zs: seq<nat>)
    requires Merge(xs, ys, zs)
    ensures |xs| == |ys| + |zs|
    decreases |xs|
  {
    if xs != [] {
      var front := xs[..|xs| - 1];
      if ys != [] && ys[|ys| - 1] == xs[|xs| - 1] && Merge(front, ys[..|ys| - 1], zs) {
        MergeLength(front, ys[..|ys| - 1], zs);
      } else {
        MergeLength(front, ys, zs[..|zs| - 1]);
      }
    }
  }

  /**
   The items returned are the first ones written, in their order, exactly if no failing wait has thrown an item away;
   a failed wait that finds the slot empty does no harm.
   */
  lemma DeliveredInOrderIff(moves: seq<Move>)
    ensures var s := Run(1, 1, moves);
            Written(s.trace) == Delivered(Results(s.trace)) + Content(s.slot) <==> Lost(s.trace) == []
  {
    var s := Run(1, 1, moves);
    Conservation(moves);
    DeliveredAtMostOnce(moves);
    hide Run, Merge, Removed, Results, Delivered, Lost, Written;
    MergeLength(Removed(s.trace), Delivered(Results(s.trace)), Lost(s.trace));
    if Lost(s.trace) == [] {
      MergeWithNothing(Removed(s.trace), Delivered(Results(s.trace)));
    }
  }

  lemma {:induction false} ResultsAreMarked(events: seq<Event>, k: nat)
    requires Buffer(events).Some? && k < |Results(events)|
    ensures Results(events)[k].rc == 0 <==> Results(events)[k].item != 0
  {
    var front := events[..|events| - 1];
    BufferConserves(front);
    if k < |Results(front)| {
      ResultsAreMarked(front, k);
    }
  }

  /** A Dequeue returns an item exactly if it returns 0. */
  lemma ResultHasItemIffZero(moves: seq<Move>, k: nat)
    requires k < |Run(1, 1, moves).dequeued|
    ensures var r := Run(1, 1, moves).dequeued[k]; r.rc == 0 <==> r.item != 0
  {
    RunKeeps(moves);
    var s := Run(1, 1, moves);
    assert Results(s.trace)[k] == s.dequeued[k];
    ResultsAreMarked(s.trace, k);
  }

  // ---------- more threads ----------

  lemma {:induction false} RunJoins(p: nat, c: nat, moves: seq<Move>, m: Move)
    ensures Run(p, c, moves + [m]) == Next(Run(p, c, moves), m)
  {
    assert (moves + [m])[..|moves|] == moves;
  }

  lemma {:induction false} ThreadsStay(p: nat, c: nat, moves: seq<Move>)
    ensures |Run(p, c, moves).producers| == p && |Run(p, c, moves).consumers| == c
  {
    if moves != [] {
      ThreadsStay(p, c, moves[..|moves| - 1]);
    }
  }

  lemma ThreeMoves(s: State, moves: seq<Move>, m: Move)
    requires s == Run(1, 1, moves)
    ensures Run(1, 1, moves + [m, m, m]) == Next(Next(Next(s, m), m), m)
  {
    hide Run, Next;
    RunJoins(1, 1, moves, m);
    RunJoins(1, 1, moves + [m], m);
    RunJoins(1, 1, moves + [m] + [m], m);
    assert moves + [m, m, m] == moves + [m] + [m] + [m];
  }

  /** A wait on the empty queue ends with an error. */
  lemma WaitFails(s: State, rc: int)
    requires s == State(0, [Outside], [Away], [], [], []) && rc != 0
    ensures var m := Consume(0, rc);
            Next(Next(Next(s, m), m), m) == State(0, [Outside], [Clearing(0, rc)], [], [], [])
  {
  }

  /** Then an item is written. */
  lemma ItemComes(s: State, x: Item, rc: int)
    requires s == State(0, [Outside], [Clearing(0, rc)], [], [], [])
    ensures var m := Produce(0, x);
            Next(Next(Next(s, m), m), m) == State(x, [Signalling(x)], [Clearing(0, rc)], [Put(x)], [], [])
  {
  }

  /** The schedule of TimedOutDequeueLosesItem. */
  function LateTimeout(x: Item, rc: int): seq<Move> {
    var (get, put) := (Consume(0, rc), Produce(0, x));
    [get, get, get] + [put, put, put] + [get]
  }

  lemma LateTimeoutRun(x: Item, rc: int)
    requires rc != 0
    ensures Run(1, 1, LateTimeout(x, rc)) ==
            State(0, [Signalling(x)], [Returning(0, rc)], [Put(x), Fail(rc, [x])], [], [])
  {
    var (get, put) := (Consume(0, rc), Produce(0, x));
    assert [] + [get, get, get] == [get, get, get];
    var s := State(0, [Outside], [Away], [], [], []);
    assert Run(1, 1, []) == s;
    hide Run;
    ThreeMoves(s, [], get);
    WaitFails(s, rc);
    s := State(0, [Outside], [Clearing(0, rc)], [], [], []);
    ThreeMoves(s, [get, get, get], put);
    ItemComes(s, x, rc);
    RunJoins(1, 1, [get, get, get] + [put, put, put], get);
  }

  /** A Dequeue whose wait ended with an error clears the slot after an item has been written to it. */
  lemma TimedOutDequeueLosesItem(x: Item, rc: int)
    requires rc != 0
    ensures var s := Run(1, 1, LateTimeout(x, rc));
            && s.trace == [Put(x), Fail(rc, [x])] && s.slot == 0
            && Written(s.trace) == [x] == Lost(s.trace) && Delivered(Results(s.trace)) == []
  {
    hide *;
    LateTimeoutRun(x, rc);
    LateTimeoutTrace(x, rc);
  }

  lemma LateTimeoutTrace(x: Item, rc: int)
    requires rc != 0
    ensures var trace := [Put(x), Fail(rc, [x])];
            Written(trace) == [x] == Lost(trace) && Delivered(Results(trace)) == []
  {
    var trace := [Put(x), Fail(rc, [x])];
    assert trace == [Put(x)] + [Fail(rc, [x])] && [Put(x)] == [] + [Put(x)];
    TraceJoins([], Put(x));
    TraceJoins([Put(x)], Fail(rc, [x]));
    ResultsJoin([], Put(x));
    ResultsJoin([Put(x)], Fail(rc, [x]));
  }

  /** A thread outside Enqueue gets past its check while the slot is empty. */
  lemma PassesCheck(p: nat, c: nat, moves: seq<Move>, i: nat, x: Item) returns (more: seq<Move>)
    requires i < p && |Run(p, c, moves).producers| == p
    requires Run(p, c, moves).producers[i] == Outside && Run(p, c, moves).slot == 0
    ensures var s := Run(p, c, moves); Run(p, c, more) == s.(producers := s.producers[i := Writing(x)])
  {
    var m := Produce(i, x);
    RunJoins(p, c, moves, m);
    RunJoins(p, c, moves + [m], m);
    more := moves + [m] + [m];
    var s := Run(p, c, moves);
    assert s.producers[i := Checking(x)][i := Writing(x)] == s.producers[i := Writing(x)];
  }

  // ---------- overwriting ----------

  /** Some thread is about to write over an item that nobody has removed. */
  ghost predicate Overwrites(s: State) {
    exists i :: 0 <= i < |s.producers| && s.producers[i].Writing? && s.slot != 0
  }

  /** A single producer never does, whatever happened since its check, and however many consumers there are. */
  lemma {:induction false} NothingIsOverwritten(c: nat, moves: seq<Move>)
    ensures !Overwrites(Run(1, c, moves))
  {
    ThreadsStay(1, c, moves);
    if moves != [] {
      NothingIsOverwritten(c, moves[..|moves| - 1]);
      ThreadsStay(1, c, moves[..|moves| - 1]);
      var s := Run(1, c, moves[..|moves| - 1]);
      assert !(s.producers[0].Writing? && s.slot != 0);
      hide Run;
    }
  }

  /** Two producers that check before either writes. */
  lemma TwoProducersMeet(p: nat, c: nat, x: Item, y: Item) returns (moves: seq<Move>)
    requires p >= 2
    ensures var s := Run(p, c, moves);
            && |s.producers| == p && s.producers[0] == Writing(x) && s.producers[1] == Writing(y)
            && s.slot == 0 && s.trace == []
  {
    ThreadsStay(p, c, []);
    moves := PassesCheck(p, c, [], 0, x);
    moves := PassesCheck(p, c, moves, 1, y);
  }

  /** The second write destroys an item that nobody removed. */
  lemma TwoProducersOverwrite(p: nat, c: nat, x: Item, y: Item) returns (moves: seq<Move>)
    requires p >= 2
    ensures var s := Run(p, c, moves); Written(s.trace) == [x, y] && Removed(s.trace) == [] && s.slot == y
  {
    var both := TwoProducersMeet(p, c, x, y);
    var (a, b) := (Produce(0, x), Produce(1, y));
    RunJoins(p, c, both, a);
    RunJoins(p, c, both + [a], b);
    moves := both + [a] + [b];
    assert Run(p, c, moves).trace == [Put(x), Put(y)];
    TwoPuts(x, y);
  }

  lemma TwoPuts(x: Item, y: Item)
    ensures Written([Put(x), Put(y)]) == [x, y] && Removed([Put(x), Put(y)]) == []
  {
    TraceJoins([], Put(x));
    TraceJoins([Put(x)], Put(y));
    assert [Put(x), Put(y)] == [] + [Put(x)] + [Put(y)];
  }

  /** An item can be overwritten exactly if there are two producers or more. */
  lemma OverwriteIff(p: nat, c: nat)
    ensures (exists moves :: Overwrites(Run(p, c, moves))) <==> p >= 2
  {
    if p >= 2 {
      var both := TwoProducersMeet(p, c, 1, 2);
      RunJoins(p, c, both, Produce(0, 1));
      assert Overwrites(Run(p, c, both + [Produce(0, 1)])) by {
        assert Run(p, c, both + [Produce(0, 1)]).producers[1] == Writing(2);
      }
    }
    forall moves | p <= 1
      ensures !Overwrites(Run(p, c, moves))
    {
      if p == 1 {
        NothingIsOverwritten(c, moves);
      } else {
        ThreadsStay(p, c, moves);
      }
    }
  }

  // ---------- delivering twice ----------

  /** `xs` is `ys` without some of its items. */
  predicate Subsequence(xs: seq<nat>, ys: seq<nat>)
    decreases |ys|
  {
    || xs == []
    || (ys != [] && Subsequence(xs, ys[..|ys| - 1]))
    || (ys != [] && xs[|xs| - 1] == ys[|ys| - 1] && Subsequence(xs[..|xs| - 1], ys[..|ys| - 1]))
  }

  lemma SubsequenceJoins(xs: seq<nat>, ys: seq<nat>, y: nat)
    requires Subsequence(xs, ys)
    ensures Subsequence(xs, ys + [y]) && Subsequence(xs + [y], ys + [y])
  {
    assert (ys + [y])[..|ys|] == ys && (xs + [y])[..|xs|] == xs;
  }

  /** The items that went to a caller. */
  function Out(s: State): seq<nat> {
    Delivered(Results(s.trace))
  }

  function Count(xs: seq<nat>, x: nat): nat {
    if xs == [] then 0 else Count(xs[..|xs| - 1], x) + (if xs[|xs| - 1] == x then 1 else 0)
  }

  /** Some item was delivered more often than it was written. */
  ghost predicate Duplicates(s: State) {
    exists x :: Count(Out(s), x) > Count(Written(s.trace), x)
  }

  lemma {:induction false} FewerOfEach(xs: seq<nat>, ys: seq<nat>, x: nat)
    requires Subsequence(xs, ys)
    ensures Count(xs, x) <= Count(ys, x)
    decreases |ys|
  {
    if xs != [] {
      if Subsequence(xs, ys[..|ys| - 1]) {
        FewerOfEach(xs, ys[..|ys| - 1], x);
      } else {
        FewerOfEach(xs[..|xs| - 1], ys[..|ys| - 1], x);
      }
    }
  }

  /**
   The single consumer: while it holds an item that it has read, that one may be delivered next; otherwise the
   item in the slot, which is the last one written.
   */
  predicate Fair(s: State)
    requires |s.consumers| == 1
  {
    var (c, written) := (s.consumers[0], Written(s.trace));
    if c.Clearing? && c.rc == 0 then Subsequence(Out(s) + [c.item], written)
    else if s.slot == 0 then Subsequence(Out(s), written)
    else written != [] && written[|written| - 1] == s.slot && Subsequence(Out(s), written[..|written| - 1])
  }

  lemma FairIsSubsequence(s: State)
    requires |s.consumers| == 1 && Fair(s)
    ensures Subsequence(Out(s), Written(s.trace))
  {
    var (xs, ys, c) := (Out(s), Written(s.trace), s.consumers[0]);
    if c.Clearing? && c.rc == 0 {
      Shorter(xs, c.item, ys);
    }
  }

  lemma {:induction false} Shorter(xs: seq<nat>, x: nat, ys: seq<nat>)
    requires Subsequence(xs + [x], ys)
    ensures Subsequence(xs, ys)
    decreases |ys|
  {
    var front := ys[..|ys| - 1];
    assert (xs + [x])[..|xs|] == xs;
    if Subsequence(xs + [x], front) {
      Shorter(xs, x, front);
    }
  }

  lemma FairPut(s: State, i: nat)
    requires |s.consumers| == 1 && Fair(s) && i < |s.producers| && s.producers[i].Writing?
    ensures Fair(ProducerStep(s, i, s.producers[i].item))
  {
    var x := s.producers[i].item;
    var c := s.consumers[0];
    TraceJoins(s.trace, Put(x));
    ResultsJoin(s.trace, Put(x));
    FairIsSubsequence(s);
    assert Out(s) + [] == Out(s);
    if c.Clearing? && c.rc == 0 {
      SubsequenceJoins(Out(s) + [c.item], Written(s.trace), x);
    }
    hide Subsequence, Written, Results, Delivered;
  }

  lemma FairRead(s: State, rc: int)
    requires |s.consumers| == 1 && Fair(s) && s.consumers[0].Reading?
    ensures Fair(ConsumerStep(s, 0, rc))
  {
    var ys := Written(s.trace);
    if s.slot != 0 {
      SubsequenceJoins(Out(s), ys[..|ys| - 1], s.slot);
      assert ys[..|ys| - 1] + [s.slot] == ys;
    }
    hide Subsequence, Written, Results, Delivered;
  }

  lemma FairClear(s: State, rc: int)
    requires |s.consumers| == 1 && Fair(s) && s.consumers[0].Clearing?
    ensures Fair(ConsumerStep(s, 0, rc))
  {
    var (x, r) := (s.consumers[0].item, s.consumers[0].rc);
    var e := if r == 0 then Get(x) else Fail(r, Content(s.slot));
    TraceJoins(s.trace, e);
    ResultsJoin(s.trace, e);
    FairIsSubsequence(s);
    assert Written(s.trace) + [] == Written(s.trace) && Out(s) + [] == Out(s);
    hide Subsequence, Written, Results, Delivered;
  }

  lemma FairNext(s: State, m: Move)
    requires |s.consumers| == 1 && Fair(s)
    ensures |Next(s, m).consumers| == 1 && Fair(Next(s, m))
  {
    hide Subsequence, Written, Results, Delivered;
    match m {
      case Produce(i, item) =>
        if i < |s.producers| && s.producers[i].Writing? { FairPut(s, i); }
      case Consume(i, rc) =>
        if i == 0 && s.consumers[0].Reading? { FairRead(s, rc); }
        if i == 0 && s.consumers[0].Clearing? { FairClear(s, rc); }
    }
  }

  lemma {:induction false} RunIsFair(p: nat, moves: seq<Move>)
    ensures |Run(p, 1, moves).consumers| == 1 && Fair(Run(p, 1, moves))
  {
    if moves != [] {
      RunIsFair(p, moves[..|moves| - 1]);
      FairNext(Run(p, 1, moves[..|moves| - 1]), moves[|moves| - 1]);
      hide Fair, Next;
    }
  }

  /** With a single consumer the items delivered are items written, each at most once and in order. */
  lemma NothingIsDuplicated(p: nat, moves: seq<Move>)
    ensures var s := Run(p, 1, moves); Subsequence(Out(s), Written(s.trace)) && !Duplicates(s)
  {
    RunIsFair(p, moves);
    var s := Run(p, 1, moves);
    hide Run, Written, Out, Fair, Subsequence, Count;
    FairIsSubsequence(s);
    forall x
      ensures Count(Out(s), x) <= Count(Written(s.trace), x)
    {
      FewerOfEach(Out(s), Written(s.trace), x);
    }
  }

  /** Without producers or without consumers nothing is ever delivered. */
  predicate Silent(s: State) {
    && Out(s) == []
    && (s.consumers == [] || (s.slot == 0 && s.producers == []))
    && (forall i :: 0 <= i < |s.consumers| && s.consumers[i].Clearing? ==> s.consumers[i].rc != 0)
  }

  lemma SilentProducer(s: State, i: nat, item: Item)
    requires Silent(s) && i < |s.producers|
    ensures Silent(ProducerStep(s, i, item))
  {
    if s.producers[i].Writing? {
      ResultsJoin(s.trace, Put(s.producers[i].item));
      assert Out(s) + [] == [];
    }
    hide Results, Delivered, Content;
  }

  lemma SilentConsumer(s: State, i: nat, rc: int)
    requires Silent(s) && i < |s.consumers|
    ensures Silent(ConsumerStep(s, i, rc))
  {
    if s.consumers[i].Clearing? {
      ResultsJoin(s.trace, Fail(s.consumers[i].rc, Content(s.slot)));
      assert Out(s) + [] == [];
    }
    hide Results, Delivered, Content;
  }

  lemma SilentNext(s: State, m: Move)
    requires Silent(s)
    ensures Silent(Next(s, m))
  {
    hide Silent, ProducerStep, ConsumerStep;
    match m {
      case Produce(i, item) => if i < |s.producers| { SilentProducer(s, i, item); }
      case Consume(i, rc) => if i < |s.consumers| { SilentConsumer(s, i, rc); }
    }
  }

  lemma {:induction false} RunIsSilent(p: nat, c: nat, moves: seq<Move>)
    requires p == 0 || c == 0
    ensures Silent(Run(p, c, moves))
  {
    if moves != [] {
      RunIsSilent(p, c, moves[..|moves| - 1]);
      SilentNext(Run(p, c, moves[..|moves| - 1]), moves[|moves| - 1]);
      hide Silent, Next;
    }
  }

  /** A thread outside Dequeue reads the item in the slot. */
  lemma ReadsItem(p: nat, c: nat, moves: seq<Move>, i: nat) returns (more: seq<Move>)
    requires i < c && |Run(p, c, moves).consumers| == c
    requires Run(p, c, moves).consumers[i] == Away && Run(p, c, moves).slot != 0
    ensures var s := Run(p, c, moves); Run(p, c, more) == s.(consumers := s.consumers[i := Clearing(s.slot, 0)])
  {
    var m := Consume(i, 0);
    RunJoins(p, c, moves, m);
    RunJoins(p, c, moves + [m], m);
    more := moves + [m] + [m];
    var s := Run(p, c, moves);
    assert s.consumers[i := Reading][i := Clearing(s.slot, 0)] == s.consumers[i := Clearing(s.slot, 0)];
  }

  /** A thread about to clear the slot after a read does so and returns the item it read. */
  lemma Clears(p: nat, c: nat, moves: seq<Move>, i: nat, x: nat) returns (more: seq<Move>)
    requires i < c && |Run(p, c, moves).consumers| == c
    requires Run(p, c, moves).consumers[i] == Clearing(x, 0)
    ensures var s := Run(p, c, moves);
            Run(p, c, more) == s.(slot := 0, consumers := s.consumers[i := Away], trace := s.trace + [Get(x)],
                                  dequeued := s.dequeued + [Result(x, 0)])
  {
    var m := Consume(i, 0);
    RunJoins(p, c, moves, m);
    RunJoins(p, c, moves + [m], m);
    more := moves + [m] + [m];
    var s := Run(p, c, moves);
    assert s.consumers[i := Returning(x, 0)][i := Away] == s.consumers[i := Away];
  }

  /** Two consumers that both read the item before either clears the slot. */
  lemma TwoConsumersShare(p: nat, c: nat, x: Item) returns (moves: seq<Move>)
    requires p >= 1 && c >= 2
    ensures var s := Run(p, c, moves);
            Written(s.trace) == [x] && Out(s) == [x, x] && s.dequeued == [Result(x, 0), Result(x, 0)]
  {
    ThreadsStay(p, c, []);
    moves := PassesCheck(p, c, [], 0, x);
    RunJoins(p, c, moves, Produce(0, x));
    moves := moves + [Produce(0, x)];
    moves := ReadsItem(p, c, moves, 0);
    moves := ReadsItem(p, c, moves, 1);
    moves := Clears(p, c, moves, 0, x);
    moves := Clears(p, c, moves, 1, x);
    assert Run(p, c, moves).trace == [Put(x), Get(x), Get(x)];
    PutAndGets(x);
  }

  lemma PutAndGets(x: Item)
    ensures Written([Put(x), Get(x), Get(x)]) == [x] && Delivered(Results([Put(x), Get(x), Get(x)])) == [x, x]
  {
    TraceJoins([], Put(x));
    TraceJoins([Put(x)], Get(x));
    TraceJoins([Put(x), Get(x)], Get(x));
    ResultsJoin([], Put(x));
    ResultsJoin([Put(x)], Get(x));
    ResultsJoin([Put(x), Get(x)], Get(x));
    hide Written, Removed, Lost;
    assert [Put(x), Get(x), Get(x)] == [] + [Put(x)] + [Get(x)] + [Get(x)];
  }

  lemma CountTwo(x: nat)
    ensures Count([x, x], x) == 2 && Count([x], x) == 1
  {
    assert [x, x][..|[x, x]| - 1] == [x] && [x][..|[x]| - 1] == [];
    assert Count([], x) == 0 && Count([x], x) == 1;
  }

  /** An item can be delivered twice exactly if there are a producer and two consumers or more. */
  lemma DuplicateIff(p: nat, c: nat)
    ensures (exists moves :: Duplicates(Run(p, c, moves))) <==> p >= 1 && c >= 2
  {
    if p >= 1 && c >= 2 {
      var moves := TwoConsumersShare(p, c, 1);
      CountTwo(1);
      assert Duplicates(Run(p, c, moves));
    }
    forall moves | p == 0 || c <= 1
      ensures !Duplicates(Run(p, c, moves))
    {
      if p == 0 || c == 0 {
        RunIsSilent(p, c, moves);
      } else {
        NothingIsDuplicated(p, moves);
      }
    }
  }
}
