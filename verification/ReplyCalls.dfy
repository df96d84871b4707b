/**
 libmqtt/MQTTLinux.c: every call of Enqueue and Dequeue that is entered has its effect or is still going on, for any
 number of threads.
 */
module ReplyCalls {
  import opened ReplyQueue

  // ---------- Enqueue ----------

  /** The item of a producer that has entered Enqueue and not yet written. */
  function Unwritten(p: Producer): seq<Item> {
    if p.Checking? || p.Waiting? || p.Writing? then [p.item] else []
  }

  /** The item of a producer inside Enqueue. */
  function Inside(p: Producer): seq<Item> {
    if p.Outside? then [] else [p.item]
  }

  /** The item with which the move enters Enqueue, as producer `i`. */
  function EntersWith(s: State, m: Move, i: nat): seq<Item> {
    if m.Produce? && m.i == i < |s.producers| && s.producers[i] == Outside then [m.item] else []
  }

  /** The item of the call that producer `i` completes with the move. */
  function LeavesWith(s: State, m: Move, i: nat): seq<Item> {
    if m.Produce? && m.i == i < |s.producers| && s.producers[i].Signalling? then [s.producers[i].item] else []
  }

  /** The items with which producer `i` has entered Enqueue. */
  function Entered(p: nat, c: nat, moves: seq<Move>, i: nat): seq<Item> {
    if moves == [] then []
    else
      var front := moves[..|moves| - 1];
      Entered(p, c, front, i) + EntersWith(Run(p, c, front), moves[|moves| - 1], i)
  }

  /** The items of the calls that producer `i` has completed. */
  function Completed(p: nat, c: nat, moves: seq<Move>, i: nat): seq<Item> {
    if moves == [] then []
    else
      var front := moves[..|moves| - 1];
      Completed(p, c, front, i) + LeavesWith(Run(p, c, front), moves[|moves| - 1], i)
  }

  lemma OwnStep(s: State, m: Move, i: nat, entered: seq<Item>, completed: seq<Item>)
    requires i < |s.producers| && entered == completed + Inside(s.producers[i])
    ensures |Next(s, m).producers| == |s.producers|
    ensures entered + EntersWith(s, m, i) == completed + LeavesWith(s, m, i) + Inside(Next(s, m).producers[i])
  {
  }

  /** Each producer has completed the calls that it has entered, in order, except the one it is inside. */
  lemma {:induction false} EnteredIsCompleted(p: nat, c: nat, moves: seq<Move>, i: nat)
    requires i < p
    ensures |Run(p, c, moves).producers| == p
    ensures Entered(p, c, moves, i) == Completed(p, c, moves, i) + Inside(Run(p, c, moves).producers[i])
  {
    if moves != [] {
      var (front, m) := (moves[..|moves| - 1], moves[|moves| - 1]);
      EnteredIsCompleted(p, c, front, i);
      hide Next, EntersWith, LeavesWith, Inside;
      OwnStep(Run(p, c, front), m, i, Entered(p, c, front, i), Completed(p, c, front, i));
    }
  }

  /** A single producer with its items, of which those written come first. */
  ghost predicate InOrder(s: State, entered: seq<Item>) {
    && |s.producers| == 1
    && entered == Written(s.trace) + Unwritten(s.producers[0])
    && entered == s.enqueued + Inside(s.producers[0])
  }

  /** What a move does to the written items. */
  lemma WrittenNext(s: State, m: Move)
    ensures Written(Next(s, m).trace) ==
            Written(s.trace) +
              (if m.Produce? && m.i < |s.producers| && s.producers[m.i].Writing? then [s.producers[m.i].item] else [])
    ensures m.Consume? ==> Next(s, m).producers == s.producers && Next(s, m).enqueued == s.enqueued
  {
    var t := Next(s, m);
    if t.trace != s.trace {
      TraceJoins(s.trace, t.trace[|s.trace|]);
    }
    hide Written;
  }

  lemma InOrderStep(s: State, m: Move, entered: seq<Item>)
    requires InOrder(s, entered)
    ensures InOrder(Next(s, m), entered + EntersWith(s, m, 0))
  {
    WrittenNext(s, m);
    hide Written;
    if m.Consume? {
      hide Next;
      assert entered + [] == entered;
    } else {
      hide ConsumerStep;
    }
  }

  /**
   One producer and any number of consumers: the items with which it has entered Enqueue are, in order, those written
   and then the one that it still holds; and those of its completed calls and then the one it is inside with.
   */
  lemma {:induction false} EnteredInOrder(c: nat, moves: seq<Move>)
    ensures InOrder(Run(1, c, moves), Entered(1, c, moves, 0))
  {
    if moves != [] {
      var front := moves[..|moves| - 1];
      EnteredInOrder(c, front);
      hide InOrder, Next, EntersWith;
      InOrderStep(Run(1, c, front), moves[|moves| - 1], Entered(1, c, front, 0));
    }
  }

  // ---------- any number of producers together ----------

  /** The items of all producers; `held` says which item one of them has. */
  function All(held: Producer -> seq<Item>, ps: seq<Producer>): multiset<Item> {
    if ps == [] then multiset{} else All(held, ps[..|ps| - 1]) + multiset(held(ps[|ps| - 1]))
  }

  /** The items with which any producer has entered Enqueue. */
  function AllEntered(p: nat, c: nat, moves: seq<Move>): multiset<Item> {
    if moves == [] then multiset{}
    else
      var (front, m) := (moves[..|moves| - 1], moves[|moves| - 1]);
      AllEntered(p, c, front) + multiset(EntersWith(Run(p, c, front), m, m.i))
  }

  lemma Regroup(a: multiset<Item>, u: multiset<Item>, b: multiset<Item>, v: multiset<Item>, w: multiset<Item>)
    requires a + u == b + v
    ensures (a + w) + u == (b + w) + v
  {
    assert (a + w) + u == (a + u) + w && (b + w) + v == (b + v) + w;
  }

  /** One producer moves on. */
  lemma {:induction false} OneMoves(held: Producer -> seq<Item>, ps: seq<Producer>, i: nat, q: Producer)
    requires i < |ps|
    ensures All(held, ps[i := q]) + multiset(held(ps[i])) == All(held, ps) + multiset(held(q))
  {
    var n := |ps| - 1;
    var last := multiset(held(ps[n]));
    if i < n {
      OneMoves(held, ps[..n], i, q);
      assert ps[i := q][..n] == ps[..n][i := q];
      Regroup(All(held, ps[..n][i := q]), multiset(held(ps[i])), All(held, ps[..n]), multiset(held(q)), last);
    } else {
      assert ps[i := q][..n] == ps[..n];
    }
  }

  ghost predicate Accounted(s: State, entered: multiset<Item>) {
    && entered == multiset(Written(s.trace)) + All(Unwritten, s.producers)
    && entered == multiset(s.enqueued) + All(Inside, s.producers)
  }

  /** What the move of one producer does to the held items. */
  lemma HeldNext(s: State, i: nat, item: Item)
    requires i < |s.producers|
    ensures var (t, p) := (ProducerStep(s, i, item), s.producers[i]);
            && |t.producers| == |s.producers| && t.producers == s.producers[i := t.producers[i]]
            && Unwritten(t.producers[i]) + (if p.Writing? then [p.item] else []) ==
               Unwritten(p) + (if p.Outside? then [item] else [])
            && Inside(t.producers[i]) + (if p.Signalling? then [p.item] else []) ==
               Inside(p) + (if p.Outside? then [item] else [])
            && t.enqueued == s.enqueued + (if p.Signalling? then [p.item] else [])
  {
  }

  /** `done` and `held` make up what was entered, and go on doing so. */
  lemma Balance(entered: multiset<Item>, done: seq<Item>, held: multiset<Item>, held': multiset<Item>, enter: seq<Item>,
                leave: seq<Item>, was: seq<Item>, isNow: seq<Item>)
    requires entered == multiset(done) + held && held' + multiset(was) == held + multiset(isNow)
    requires isNow + leave == was + enter
    ensures entered + multiset(enter) == multiset(done + leave) + held'
  {
    assert multiset(isNow + leave) == multiset(isNow) + multiset(leave);
    assert multiset(was + enter) == multiset(was) + multiset(enter);
    assert multiset(done + leave) == multiset(done) + multiset(leave);
    Cancel(multiset(done), held, held', multiset(enter), multiset(leave), multiset(was), multiset(isNow));
  }

  lemma Cancel(done: multiset<Item>, held: multiset<Item>, held': multiset<Item>, enter: multiset<Item>,
               leave: multiset<Item>, was: multiset<Item>, isNow: multiset<Item>)
    requires held' + was == held + isNow && isNow + leave == was + enter
    ensures done + held + enter == done + leave + held'
  {
    forall x: Item ensures (done + held + enter)[x] == (done + leave + held')[x] {
      assert (held' + was)[x] == (held + isNow)[x] && (isNow + leave)[x] == (was + enter)[x];
    }
  }

  lemma AccountedStep(s: State, m: Move, entered: multiset<Item>)
    requires Accounted(s, entered)
    ensures Accounted(Next(s, m), entered + multiset(EntersWith(s, m, m.i)))
  {
    WrittenNext(s, m);
    hide Written, All;
    if m.Produce? && m.i < |s.producers| {
      HeldNext(s, m.i, m.item);
      var (p, q) := (s.producers[m.i], Next(s, m).producers[m.i]);
      hide ProducerStep, Unwritten, Inside;
      OneMoves(Unwritten, s.producers, m.i, q);
      OneMoves(Inside, s.producers, m.i, q);
      var enter := if p.Outside? then [m.item] else [];
      Balance(entered, Written(s.trace), All(Unwritten, s.producers), All(Unwritten, Next(s, m).producers), enter,
              if p.Writing? then [p.item] else [], Unwritten(p), Unwritten(q));
      Balance(entered, s.enqueued, All(Inside, s.producers), All(Inside, Next(s, m).producers), enter,
              if p.Signalling? then [p.item] else [], Inside(p), Inside(q));
    } else {
      hide ProducerStep, ConsumerStep;
      assert Written(s.trace) + [] == Written(s.trace);
    }
  }

  /**
   Any number of producers and consumers: the items with which Enqueue has been entered are, with their multiplicities,
   those written and those still held; and those of the completed calls and of the calls still going on.
   */
  lemma {:induction false} EveryItemIsAccountedFor(p: nat, c: nat, moves: seq<Move>)
    ensures Accounted(Run(p, c, moves), AllEntered(p, c, moves))
  {
    if moves != [] {
      var front := moves[..|moves| - 1];
      EveryItemIsAccountedFor(p, c, front);
      hide Accounted, Next, EntersWith;
      AccountedStep(Run(p, c, front), moves[|moves| - 1], AllEntered(p, c, front));
    } else {
      NobodyInside(p);
    }
  }

  lemma {:induction false} NobodyInside(p: nat)
    ensures var ps := seq(p, i => Outside); All(Unwritten, ps) == multiset{} == All(Inside, ps)
  {
    if p > 0 {
      NobodyInside(p - 1);
      assert seq(p, i => Outside)[..p - 1] == seq(p - 1, i => Outside);
    }
  }

  // ---------- Dequeue ----------

  /** Whether a consumer is inside Dequeue. */
  function Busy(c: Consumer): nat {
    if c == Away then 0 else 1
  }

  /** Whether the move enters Dequeue, as consumer `i`. */
  function Asks(s: State, m: Move, i: nat): nat {
    if m.Consume? && m.i == i < |s.consumers| && s.consumers[i] == Away then 1 else 0
  }

  /** Whether it returns from Dequeue. */
  function Returns(s: State, m: Move, i: nat): nat {
    if m.Consume? && m.i == i < |s.consumers| && s.consumers[i].Returning? then 1 else 0
  }

  /** How often consumer `i` has entered Dequeue. */
  function Asked(p: nat, c: nat, moves: seq<Move>, i: nat): nat {
    if moves == [] then 0
    else
      var front := moves[..|moves| - 1];
      Asked(p, c, front, i) + Asks(Run(p, c, front), moves[|moves| - 1], i)
  }

  /** How often it has returned. */
  function Returned(p: nat, c: nat, moves: seq<Move>, i: nat): nat {
    if moves == [] then 0
    else
      var front := moves[..|moves| - 1];
      Returned(p, c, front, i) + Returns(Run(p, c, front), moves[|moves| - 1], i)
  }

  lemma OwnTurn(s: State, m: Move, i: nat)
    requires i < |s.consumers|
    ensures |Next(s, m).consumers| == |s.consumers|
    ensures Busy(Next(s, m).consumers[i]) + Returns(s, m, i) == Busy(s.consumers[i]) + Asks(s, m, i)
  {
    if m.Produce? {
      hide Busy;
    }
  }

  /** Each consumer has returned from every Dequeue that it has entered, except the one it is inside. */
  lemma {:induction false} AskedIsReturned(p: nat, c: nat, moves: seq<Move>, i: nat)
    requires i < c
    ensures |Run(p, c, moves).consumers| == c
    ensures Asked(p, c, moves, i) == Returned(p, c, moves, i) + Busy(Run(p, c, moves).consumers[i])
  {
    if moves != [] {
      var (front, m) := (moves[..|moves| - 1], moves[|moves| - 1]);
      AskedIsReturned(p, c, front, i);
      hide Next, Asks, Returns, Busy;
      OwnTurn(Run(p, c, front), m, i);
    }
  }

  /** How many consumers are inside Dequeue. */
  function AllBusy(cs: seq<Consumer>): nat {
    if cs == [] then 0 else AllBusy(cs[..|cs| - 1]) + Busy(cs[|cs| - 1])
  }

  /** How often any consumer has entered Dequeue. */
  function AllAsked(p: nat, c: nat, moves: seq<Move>): nat {
    if moves == [] then 0
    else
      var (front, m) := (moves[..|moves| - 1], moves[|moves| - 1]);
      AllAsked(p, c, front) + Asks(Run(p, c, front), m, m.i)
  }

  lemma {:induction false} OneTurns(cs: seq<Consumer>, i: nat, d: Consumer)
    requires i < |cs|
    ensures AllBusy(cs[i := d]) + Busy(cs[i]) == AllBusy(cs) + Busy(d)
  {
    hide Busy;
    var n := |cs| - 1;
    if i < n {
      OneTurns(cs[..n], i, d);
      assert cs[i := d][..n] == cs[..n][i := d];
    } else {
      assert cs[i := d][..n] == cs[..n];
    }
  }

  lemma CallsNext(s: State, m: Move)
    ensures var t := Next(s, m);
            |t.dequeued| + AllBusy(t.consumers) == |s.dequeued| + AllBusy(s.consumers) + Asks(s, m, m.i)
  {
    hide AllBusy;
    if m.Consume? && m.i < |s.consumers| {
      hide ProducerStep;
      OneTurns(s.consumers, m.i, Next(s, m).consumers[m.i]);
    } else {
      hide ConsumerStep;
    }
  }

  /** Any number of producers and consumers: every Dequeue entered has a result or is still going on. */
  lemma {:induction false} EveryDequeueHasAResult(p: nat, c: nat, moves: seq<Move>)
    ensures var s := Run(p, c, moves); AllAsked(p, c, moves) == |s.dequeued| + AllBusy(s.consumers)
  {
    if moves != [] {
      var front := moves[..|moves| - 1];
      EveryDequeueHasAResult(p, c, front);
      hide Next, Asks, AllBusy;
      CallsNext(Run(p, c, front), moves[|moves| - 1]);
    } else {
      NobodyBusy(c);
    }
  }

  lemma {:induction false} NobodyBusy(c: nat)
    ensures AllBusy(seq(c, i => Away)) == 0
  {
    if c > 0 {
      NobodyBusy(c - 1);
      assert seq(c, i => Away)[..c - 1] == seq(c - 1, i => Away);
    }
  }
}
