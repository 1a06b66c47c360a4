/** The worker pool as a protocol: its atomic steps are the stretches of code between taking the mutex and
    giving it up, by returning or by waiting on the condition. */
module PoolProtocol {

  const TICKETS := 0x1_0000_0000
  const ILLEGAL_TICKET := 0

  datatype Config = Config(maxThreads: nat, maxWaiting: nat)

  /** A task is known by its place in the order of submission. */
  datatype Task = Task(id: nat, ticket: nat)

  /** The shared variables, and where every pool thread is: starting (created, has not asked for work yet),
      executing a task, blocked on the condition, awake (signalled, or woken without a signal, but not yet
      running), or stopping (on its way out, no longer counted). */
  datatype State = State(
    nThreads: int,
    nRunning: int,
    queue: seq<Task>,
    running: set<nat>,
    currTicket: nat,
    starting: set<nat>,
    executing: map<nat, Task>,
    blocked: set<nat>,
    awake: set<nat>,
    stopping: set<nat>,
    submitted: seq<Task>,
    finished: set<nat>)

  function Initial(): State {
    State(0, 0, [], {}, 0, {}, map[], {}, {}, {}, [], {})
  }

  ghost predicate Known(s: State, pt: nat) {
    pt in s.starting || pt in s.executing || pt in s.blocked || pt in s.awake || pt in s.stopping
  }

  // ---------------------------------------------------------------- the steps

  /** A new thread, if all counted threads have work and the limit allows it. */
  function WithThread(cfg: Config, s: State, newThread: nat): State {
    if s.nThreads == s.nRunning && s.nThreads < cfg.maxThreads
    then s.(nThreads := s.nThreads + 1, starting := s.starting + {newThread})
    else s
  }

  /** notify_one: some blocked thread, if there is one. */
  function Notified(s: State, who: nat): State {
    if who in s.blocked then s.(blocked := s.blocked - {who}, awake := s.awake + {who}) else s
  }

  /** execute() */
  function Submit(cfg: Config, s: State, newThread: nat, ticket: nat, who: nat): State {
    var t, task := WithThread(cfg, s, newThread), Task(|s.submitted|, ticket);
    Notified(t.(queue := t.queue + [task], running := t.running + {ticket}, nRunning := t.nRunning + 1,
      currTicket := ticket, submitted := t.submitted + [task]), who)
  }

  ghost predicate MaySubmit(s: State, newThread: nat, ticket: nat, who: nat) {
    && !Known(s, newThread) && 0 < ticket < TICKETS && ticket !in s.running
    && (s.blocked != {} ==> who in s.blocked)
  }

  /** One pass of the loop in getRunnable() by a thread that holds the mutex and is in none of the sets: takes
      the oldest task, or leaves, or blocks. */
  function Look(cfg: Config, s: State, pt: nat): State {
    if s.queue != [] then s.(executing := s.executing[pt := s.queue[0]], queue := s.queue[1..])
    else if s.nThreads >= s.nRunning && s.nThreads - s.nRunning > cfg.maxWaiting
    then s.(nThreads := s.nThreads - 1, stopping := s.stopping + {pt})
    else s.(blocked := s.blocked + {pt})
  }

  /** A task ends: its ticket is given up. */
  function End(s: State, pt: nat): State
    requires pt in s.executing
  {
    var task := s.executing[pt];
    s.(executing := s.executing - {pt}, running := s.running - {task.ticket}, nRunning := s.nRunning - 1,
      finished := s.finished + {task.id})
  }

  ghost predicate Step(cfg: Config, s: State, s': State) {
    || (exists newThread: nat, ticket: nat, who: nat ::
          MaySubmit(s, newThread, ticket, who) && s' == Submit(cfg, s, newThread, ticket, who))
    || (exists pt: nat :: pt in s.starting && s' == Look(cfg, s.(starting := s.starting - {pt}), pt))
    || (exists pt: nat :: pt in s.executing && s' == Look(cfg, End(s, pt), pt))
    || (exists pt: nat :: pt in s.awake && s' == Look(cfg, s.(awake := s.awake - {pt}), pt))
    || (exists pt: nat :: pt in s.blocked && s' == s.(blocked := s.blocked - {pt}, awake := s.awake + {pt}))
    || (exists pt: nat :: pt in s.stopping && s' == s.(stopping := s.stopping - {pt}))
    || s' == s
  }

  // ---------------------------------------------------------------- what always holds

  ghost predicate Disjoint(s: State) {
    && s.starting !! s.blocked && s.starting !! s.awake && s.starting !! s.stopping && s.blocked !! s.awake
    && s.blocked !! s.stopping && s.awake !! s.stopping
    && s.executing.Keys !! s.starting && s.executing.Keys !! s.blocked && s.executing.Keys !! s.awake
    && s.executing.Keys !! s.stopping
  }

  ghost predicate Capacity(cfg: Config, s: State) {
    && s.nThreads == |s.starting| + |s.executing| + |s.blocked| + |s.awake|
    && s.nThreads <= cfg.maxThreads
    && (s.nThreads >= s.nRunning || s.nThreads >= cfg.maxThreads)
    && |s.blocked| + |s.awake| <= cfg.maxWaiting
  }

  /** No wake-up is lost: while a thread sleeps, every queued task has a thread on its way to it. */
  ghost predicate Awaited(s: State) {
    s.blocked != {} ==> |s.queue| <= |s.awake| + |s.starting|
  }

  /** A queued or executing task has this ticket. */
  ghost predicate Held(s: State, t: nat) {
    || (exists i :: 0 <= i < |s.queue| && s.queue[i].ticket == t)
    || (exists p :: p in s.executing && s.executing[p].ticket == t)
  }

  /** Tickets belong to exactly the queued and the executing tasks, each to one of them. */
  ghost predicate Tickets(s: State) {
    && s.nRunning == |s.running| == |s.queue| + |s.executing| && 0 !in s.running
    && LiveTickets(s) && (forall t :: t in s.running ==> Held(s, t))
  }

  /** Live tasks have tickets of their own. */
  ghost predicate LiveTickets(s: State) {
    && (forall i :: 0 <= i < |s.queue| ==> s.queue[i].ticket in s.running)
    && (forall p :: p in s.executing ==> s.executing[p].ticket in s.running)
    && (forall i, j :: 0 <= i < j < |s.queue| ==> s.queue[i].ticket != s.queue[j].ticket)
    && (forall p, q :: p in s.executing && q in s.executing && p != q ==>
          s.executing[p].ticket != s.executing[q].ticket)
    && (forall i, p :: 0 <= i < |s.queue| && p in s.executing ==> s.queue[i].ticket != s.executing[p].ticket)
  }

  /** Tasks start in the order of submission, each once; what has started is either executing or finished. */
  ghost predicate History(s: State) {
    && |s.queue| <= |s.submitted| && s.queue == s.submitted[|s.submitted| - |s.queue|..]
    && (forall i :: 0 <= i < |s.submitted| ==> s.submitted[i].id == i)
    && (forall p :: p in s.executing ==>
          && s.executing[p].id < |s.submitted| - |s.queue| && s.executing[p].id !in s.finished
          && s.executing[p] == s.submitted[s.executing[p].id])
    && (forall p, q :: p in s.executing && q in s.executing && p != q ==> s.executing[p].id != s.executing[q].id)
    && (forall i :: i in s.finished ==> 0 <= i < |s.submitted| - |s.queue|)
    && (forall i :: 0 <= i < |s.submitted| - |s.queue| && i !in s.finished ==>
          exists p :: p in s.executing && s.executing[p].id == i)
  }

  ghost predicate Inv(cfg: Config, s: State) {
    Disjoint(s) && Capacity(cfg, s) && Awaited(s) && Tickets(s) && History(s)
  }

  lemma InitialInv(cfg: Config)
    ensures Inv(cfg, Initial())
  {
  }

  // ---------------------------------------------------------------- submitting

  lemma SubmitInv(cfg: Config, s: State, newThread: nat, ticket: nat, who: nat)
    requires Inv(cfg, s) && MaySubmit(s, newThread, ticket, who)
    ensures Inv(cfg, Submit(cfg, s, newThread, ticket, who))
  {
    SubmitThreads(cfg, s, newThread, ticket, who);
    SubmitTickets(cfg, s, newThread, ticket, who);
    SubmitHistory(cfg, s, newThread, ticket, who);
  }

  lemma SubmitThreads(cfg: Config, s: State, newThread: nat, ticket: nat, who: nat)
    requires Disjoint(s) && Capacity(cfg, s) && Awaited(s) && MaySubmit(s, newThread, ticket, who)
    ensures var s' := Submit(cfg, s, newThread, ticket, who); Disjoint(s') && Capacity(cfg, s') && Awaited(s')
  {
    var t := WithThread(cfg, s, newThread);
    assert t.blocked == s.blocked && t.awake == s.awake;
    if s.blocked == {} {
      assert |s.blocked| == 0;
    }
  }

  lemma SubmitTickets(cfg: Config, s: State, newThread: nat, ticket: nat, who: nat)
    requires Tickets(s) && MaySubmit(s, newThread, ticket, who)
    ensures Tickets(Submit(cfg, s, newThread, ticket, who))
  {
    hide Held, LiveTickets;
    var s' := Submit(cfg, s, newThread, ticket, who);
    assert s'.queue == s.queue + [Task(|s.submitted|, ticket)] && s'.executing == s.executing &&
      s'.running == s.running + {ticket};
    SubmitLive(s, s', ticket);
    forall t | t in s'.running ensures Held(s', t) {
      SubmitHeld(s, s', ticket, t);
    }
  }

  lemma SubmitLive(s: State, s': State, ticket: nat)
    requires LiveTickets(s) && ticket !in s.running
    requires s'.queue == s.queue + [Task(|s.submitted|, ticket)] && s'.executing == s.executing
    requires s'.running == s.running + {ticket}
    ensures LiveTickets(s')
  {
    assert s'.queue[|s.queue|].ticket == ticket;
    assert forall i :: 0 <= i < |s.queue| ==> s'.queue[i] == s.queue[i];
  }

  lemma SubmitHeld(s: State, s': State, ticket: nat, t: nat)
    requires s'.queue == s.queue + [Task(|s.submitted|, ticket)] && s'.executing == s.executing
    requires (t == ticket || Held(s, t))
    ensures Held(s', t)
  {
    if t == ticket {
      assert s'.queue[|s.queue|].ticket == t;
    } else if i: nat :| i < |s.queue| && s.queue[i].ticket == t {
      assert s'.queue[i].ticket == t;
    }
  }

  lemma SubmitHistory(cfg: Config, s: State, newThread: nat, ticket: nat, who: nat)
    requires History(s) && MaySubmit(s, newThread, ticket, who)
    ensures History(Submit(cfg, s, newThread, ticket, who))
  {
    var s' := Submit(cfg, s, newThread, ticket, who);
    var k := |s.submitted| - |s.queue|;
    assert s'.submitted == s.submitted + [Task(|s.submitted|, ticket)] &&
      s'.queue == s.queue + [Task(|s.submitted|, ticket)];
    assert s'.submitted[k..] == s.submitted[k..] + [Task(|s.submitted|, ticket)];
    assert |s'.submitted| - |s'.queue| == k;
  }

  // ---------------------------------------------------------------- looking for work

  /** The state seen by a thread inside getRunnable: like the invariant, with this one thread in no set. */
  ghost predicate Inside(cfg: Config, s: State, pt: nat) {
    && !Known(s, pt) && Disjoint(s) && Tickets(s) && History(s)
    && s.nThreads == |s.starting| + |s.executing| + |s.blocked| + |s.awake| + 1
    && s.nThreads <= cfg.maxThreads && (s.nThreads >= s.nRunning || s.nThreads >= cfg.maxThreads)
    && |s.blocked| + |s.awake| <= cfg.maxWaiting
    && (s.blocked != {} ==> |s.queue| <= |s.awake| + |s.starting| + 1)
  }

  lemma TicketCount(s: State)
    ensures Tickets(s) ==> s.nRunning == |s.queue| + |s.executing|
    ensures History(s) ==> |s.queue| <= |s.submitted|
  {
  }

  lemma LookInv(cfg: Config, s: State, pt: nat)
    requires Inside(cfg, s, pt)
    ensures Inv(cfg, Look(cfg, s, pt))
  {
    hide Tickets, History, Disjoint, Capacity, Awaited;
    TicketCount(s);
    if s.queue != [] {
      TakeThreads(cfg, s, pt);
      TakeTickets(cfg, s, pt);
      TakeHistory(cfg, s, pt);
    } else {
      if s.nThreads >= s.nRunning && s.nThreads - s.nRunning > cfg.maxWaiting {
        LeaveThreads(cfg, s, pt);
      } else {
        BlockThreads(cfg, s, pt);
      }
      SameTickets(s, Look(cfg, s, pt));
    }
  }

  lemma TakeThreads(cfg: Config, s: State, pt: nat)
    requires Inside(cfg, s, pt) && s.queue != []
    ensures var s' := Look(cfg, s, pt); Disjoint(s') && Capacity(cfg, s') && Awaited(s')
  {
    hide Tickets, History;
    var s' := Look(cfg, s, pt);
    assert s'.executing.Keys == s.executing.Keys + {pt};
    assert |s'.executing| == |s'.executing.Keys| && |s.executing| == |s.executing.Keys|;
  }

  lemma LeaveThreads(cfg: Config, s: State, pt: nat)
    requires Inside(cfg, s, pt) && s.queue == [] && s.nThreads >= s.nRunning && s.nThreads - s.nRunning > cfg.maxWaiting
    ensures var s' := Look(cfg, s, pt); Disjoint(s') && Capacity(cfg, s') && Awaited(s')
  {
    hide Tickets, History;
  }

  lemma BlockThreads(cfg: Config, s: State, pt: nat)
    requires Inside(cfg, s, pt) && s.queue == []
    requires !(s.nThreads >= s.nRunning && s.nThreads - s.nRunning > cfg.maxWaiting)
    ensures var s' := Look(cfg, s, pt); Disjoint(s') && Capacity(cfg, s') && Awaited(s')
  {
    hide Tickets, History;
    TicketCount(s);
    var s' := Look(cfg, s, pt);
    assert s' == s.(blocked := s.blocked + {pt});
    hide Look;
    assert |s'.blocked| == |s.blocked| + 1;
  }

  lemma SameTickets(s: State, s': State)
    requires s'.queue == s.queue && s'.executing == s.executing && s'.running == s.running && s'.nRunning == s.nRunning
    requires s'.submitted == s.submitted && s'.finished == s.finished
    ensures Tickets(s) ==> Tickets(s')
    ensures History(s) ==> History(s')
  {
  }

  lemma TakeTickets(cfg: Config, s: State, pt: nat)
    requires Tickets(s) && s.queue != [] && pt !in s.executing
    ensures Tickets(Look(cfg, s, pt))
  {
    hide Held;
    var s' := Look(cfg, s, pt);
    assert s'.executing.Keys == s.executing.Keys + {pt};
    assert |s'.executing| == |s'.executing.Keys| && |s.executing| == |s.executing.Keys|;
    TakeLive(s, s', pt);
    forall t | t in s'.running ensures Held(s', t) {
      TakeHeld(s, s', pt, t);
    }
  }

  lemma TakeLive(s: State, s': State, pt: nat)
    requires LiveTickets(s) && s.queue != [] && pt !in s.executing
    requires s'.executing == s.executing[pt := s.queue[0]] && s'.queue == s.queue[1..] && s'.running == s.running
    ensures LiveTickets(s')
  {
  }

  lemma TakeHeld(s: State, s': State, pt: nat, t: nat)
    requires Held(s, t) && s.queue != [] && pt !in s.executing && s'.executing == s.executing[pt := s.queue[0]]
    requires s'.queue == s.queue[1..]
    ensures Held(s', t)
  {
    if i: nat :| i < |s.queue| && s.queue[i].ticket == t {
      if i == 0 {
        assert s'.executing[pt].ticket == t;
      } else {
        assert s'.queue[i - 1].ticket == t;
      }
    } else {
      var p :| p in s.executing && s.executing[p].ticket == t;
      assert s'.executing[p].ticket == t;
    }
  }

  lemma TakeHistory(cfg: Config, s: State, pt: nat)
    requires History(s) && s.queue != [] && pt !in s.executing
    ensures History(Look(cfg, s, pt))
  {
    var s' := Look(cfg, s, pt);
    var k := |s.submitted| - |s.queue|;
    assert s.queue[0] == s.submitted[k];
    assert s'.queue == s.submitted[k + 1..];
    forall i | 0 <= i < k + 1 && i !in s'.finished ensures exists p :: p in s'.executing && s'.executing[p].id == i {
      if i == k {
        assert s'.executing[pt].id == i;
      } else {
        var p :| p in s.executing && s.executing[p].id == i;
        assert s'.executing[p].id == i;
      }
    }
  }

  /** Giving the ticket up when a task ends. */
  lemma EndInside(cfg: Config, s: State, pt: nat)
    requires Inv(cfg, s) && pt in s.executing
    ensures Inside(cfg, End(s, pt), pt)
  {
    hide Tickets, History;
    var s' := End(s, pt);
    assert s'.executing.Keys == s.executing.Keys - {pt};
    assert |s'.executing| == |s'.executing.Keys| && |s.executing| == |s.executing.Keys|;
    EndTickets(s, pt);
    EndHistory(s, pt);
    EndCounts(s, pt);
  }

  lemma EndCounts(s: State, pt: nat)
    requires Tickets(s) && pt in s.executing
    ensures s.nRunning >= 1
  {
    assert s.executing.Keys != {};
    assert |s.executing| == |s.executing.Keys|;
  }

  lemma EndTickets(s: State, pt: nat)
    requires Tickets(s) && pt in s.executing
    ensures Tickets(End(s, pt))
  {
    hide Held;
    var s' := End(s, pt);
    assert s'.executing.Keys == s.executing.Keys - {pt};
    assert |s'.executing| == |s'.executing.Keys| && |s.executing| == |s.executing.Keys|;
    assert s.executing[pt].ticket in s.running;
    assert LiveTickets(s');
    forall t | t in s'.running ensures Held(s', t) {
      EndHeld(s, pt, t);
    }
  }

  lemma EndHeld(s: State, pt: nat, t: nat)
    requires pt in s.executing && Held(s, t) && t != s.executing[pt].ticket
    ensures Held(End(s, pt), t)
  {
    var s' := End(s, pt);
    if p :| p in s.executing && s.executing[p].ticket == t {
      assert s'.executing[p].ticket == t;
    } else {
      var i: nat :| i < |s.queue| && s.queue[i].ticket == t;
      assert s'.queue[i].ticket == t;
    }
  }

  lemma EndHistory(s: State, pt: nat)
    requires History(s) && pt in s.executing
    ensures History(End(s, pt))
  {
    var s' := End(s, pt);
    EndExecuting(s, pt);
    forall i | 0 <= i < |s.submitted| - |s.queue| && i !in s'.finished
      ensures exists p :: p in s'.executing && s'.executing[p].id == i
    {
      EndStarted(s, pt, i);
    }
  }

  lemma EndExecuting(s: State, pt: nat)
    requires pt in s.executing
    ensures var s' := End(s, pt); forall p :: p in s'.executing <==> p in s.executing && p != pt
    ensures var s' := End(s, pt); forall p :: p in s'.executing ==> s'.executing[p] == s.executing[p]
  {
  }

  lemma EndStarted(s: State, pt: nat, i: nat)
    requires History(s) && pt in s.executing && i < |s.submitted| - |s.queue| && i !in End(s, pt).finished
    ensures exists p :: p in End(s, pt).executing && End(s, pt).executing[p].id == i
  {
    EndExecuting(s, pt);
    var p :| p in s.executing && s.executing[p].id == i;
    assert p in End(s, pt).executing && End(s, pt).executing[p].id == i;
  }

  // ---------------------------------------------------------------- all steps, all runs

  lemma StartInside(cfg: Config, s: State, pt: nat)
    requires Inv(cfg, s) && pt in s.starting
    ensures Inside(cfg, s.(starting := s.starting - {pt}), pt)
  {
    hide Tickets, History;
    TicketCount(s);
    SameTickets(s, s.(starting := s.starting - {pt}));
  }

  lemma AwakeInside(cfg: Config, s: State, pt: nat)
    requires Inv(cfg, s) && pt in s.awake
    ensures Inside(cfg, s.(awake := s.awake - {pt}), pt)
  {
    hide Tickets, History;
    TicketCount(s);
    SameTickets(s, s.(awake := s.awake - {pt}));
  }

  lemma WakeInv(cfg: Config, s: State, pt: nat)
    requires Inv(cfg, s) && pt in s.blocked
    ensures Inv(cfg, s.(blocked := s.blocked - {pt}, awake := s.awake + {pt}))
  {
    hide Tickets, History;
    TicketCount(s);
    SameTickets(s, s.(blocked := s.blocked - {pt}, awake := s.awake + {pt}));
  }

  lemma RemoveInv(cfg: Config, s: State, pt: nat)
    requires Inv(cfg, s) && pt in s.stopping
    ensures Inv(cfg, s.(stopping := s.stopping - {pt}))
  {
    hide Tickets, History;
    TicketCount(s);
    SameTickets(s, s.(stopping := s.stopping - {pt}));
  }

  /** Every step keeps the invariant. */
  lemma StepInv(cfg: Config, s: State, s': State)
    requires Inv(cfg, s) && Step(cfg, s, s')
    ensures Inv(cfg, s')
  {
    hide Inv, Submit, Look, End, Inside;
    if newThread: nat, ticket: nat, who: nat :|
        MaySubmit(s, newThread, ticket, who) && s' == Submit(cfg, s, newThread, ticket, who) {
      SubmitInv(cfg, s, newThread, ticket, who);
    } else if pt: nat :| pt in s.starting && s' == Look(cfg, s.(starting := s.starting - {pt}), pt) {
      StartInside(cfg, s, pt);
      LookInv(cfg, s.(starting := s.starting - {pt}), pt);
    } else if pt: nat :| pt in s.executing && s' == Look(cfg, End(s, pt), pt) {
      EndInside(cfg, s, pt);
      LookInv(cfg, End(s, pt), pt);
    } else if pt: nat :| pt in s.awake && s' == Look(cfg, s.(awake := s.awake - {pt}), pt) {
      AwakeInside(cfg, s, pt);
      LookInv(cfg, s.(awake := s.awake - {pt}), pt);
    } else if pt: nat :| pt in s.blocked && s' == s.(blocked := s.blocked - {pt}, awake := s.awake + {pt}) {
      WakeInv(cfg, s, pt);
    } else if pt: nat :| pt in s.stopping && s' == s.(stopping := s.stopping - {pt}) {
      RemoveInv(cfg, s, pt);
    }
  }

  /** A run: any sequence of steps from the initial state. */
  ghost predicate Run(cfg: Config, r: seq<State>) {
    && r != [] && r[0] == Initial()
    && forall i :: 0 < i < |r| ==> Step(cfg, r[i - 1], r[i])
  }

  /** Safety over whole runs. */
  lemma {:induction false} RunInv(cfg: Config, r: seq<State>, k: nat)
    requires Run(cfg, r) && k < |r|
    ensures Inv(cfg, r[k])
  {
    if k == 0 {
      InitialInv(cfg);
    } else {
      RunInv(cfg, r, k - 1);
      StepInv(cfg, r[k - 1], r[k]);
    }
  }

  // ---------------------------------------------------------------- what a caller learns

  /** The number of tasks that have been handed to a thread. */
  function Started(s: State): int {
    |s.submitted| - |s.queue|
  }

  /** A submitted task is finished, or its ticket is still live. */
  lemma FinishedOrLive(cfg: Config, s: State, i: nat)
    requires Inv(cfg, s) && i < |s.submitted|
    ensures i in s.finished || s.submitted[i].ticket in s.running
  {
    hide Disjoint, Capacity, Awaited;
    var k := Started(s);
    if i >= k {
      assert s.queue[i - k] == s.submitted[i];
    } else if i !in s.finished {
      var p :| p in s.executing && s.executing[p].id == i;
      assert s.executing[p] == s.submitted[i];
    }
  }

  /** A step forgets no submission and no completion. */
  ghost predicate Later(s: State, s': State) {
    s.submitted <= s'.submitted && s.finished <= s'.finished
  }

  lemma LookLater(cfg: Config, s: State, pt: nat)
    ensures Later(s, Look(cfg, s, pt))
    ensures s.queue == [] ==> Look(cfg, s, pt).executing == s.executing && Started(Look(cfg, s, pt)) == Started(s)
    ensures s.queue != [] ==> Look(cfg, s, pt).executing == s.executing[pt := s.queue[0]]
    ensures s.queue != [] ==> Started(Look(cfg, s, pt)) == Started(s) + 1
  {
  }

  lemma SubmitLater(cfg: Config, s: State, newThread: nat, ticket: nat, who: nat)
    ensures Later(s, Submit(cfg, s, newThread, ticket, who))
    ensures Started(Submit(cfg, s, newThread, ticket, who)) == Started(s)
    ensures Submit(cfg, s, newThread, ticket, who).submitted == s.submitted + [Task(|s.submitted|, ticket)]
  {
  }

  /** The thread that goes on to execute task number i. */
  ghost predicate Runs(s: State, i: nat) {
    exists pt :: pt in s.executing && s.executing[pt].id == i && i < |s.submitted| && s.executing[pt] == s.submitted[i]
  }

  ghost predicate StartsInOrder(s: State, s': State) {
    Started(s') == Started(s) || (Started(s') == Started(s) + 1 && Started(s) >= 0 && Runs(s', Started(s)))
  }

  /** A step starts no task, or exactly the oldest one that has not started; and it forgets nothing. */
  lemma StepStarts(cfg: Config, s: State, s': State)
    requires Inv(cfg, s) && Step(cfg, s, s')
    ensures Later(s, s') && StartsInOrder(s, s')
  {
    hide Inv, Submit, Look, End;
    if newThread: nat, ticket: nat, who: nat :|
        MaySubmit(s, newThread, ticket, who) && s' == Submit(cfg, s, newThread, ticket, who) {
      SubmitLater(cfg, s, newThread, ticket, who);
    } else if pt: nat :| pt in s.starting && s' == Look(cfg, s.(starting := s.starting - {pt}), pt) {
      Takes(cfg, s, s.(starting := s.starting - {pt}), pt);
    } else if pt: nat :| pt in s.executing && s' == Look(cfg, End(s, pt), pt) {
      EndLater(s, pt);
      Takes(cfg, s, End(s, pt), pt);
    } else if pt: nat :| pt in s.awake && s' == Look(cfg, s.(awake := s.awake - {pt}), pt) {
      Takes(cfg, s, s.(awake := s.awake - {pt}), pt);
    }
  }

  lemma EndLater(s: State, pt: nat)
    requires pt in s.executing
    ensures Later(s, End(s, pt)) && End(s, pt).queue == s.queue && End(s, pt).submitted == s.submitted
  {
  }

  lemma Takes(cfg: Config, s: State, t: State, pt: nat)
    requires Inv(cfg, s) && t.queue == s.queue && t.submitted == s.submitted && s.finished <= t.finished
    ensures Later(s, Look(cfg, t, pt)) && StartsInOrder(s, Look(cfg, t, pt))
  {
    hide Disjoint, Capacity, Awaited, Tickets;
    LookLater(cfg, t, pt);
    if s.queue != [] {
      var s', k := Look(cfg, t, pt), Started(s);
      assert s.queue[0] == s.submitted[k];
      assert pt in s'.executing && s'.executing[pt].id == k;
    }
  }

  lemma {:induction false} RunLater(cfg: Config, r: seq<State>, a: nat, b: nat)
    requires Run(cfg, r) && a <= b < |r|
    ensures Later(r[a], r[b])
  {
    hide Inv, Step;
    if a < b {
      RunLater(cfg, r, a, b - 1);
      RunInv(cfg, r, b - 1);
      StepStarts(cfg, r[b - 1], r[b]);
    }
  }

  /** What waitFor promises: if, at some later point of the run, no ticket in the list is live, every task
      submitted before under one of these tickets has finished. */
  lemma WaitForIsSound(cfg: Config, r: seq<State>, a: nat, b: nat, tickets: seq<nat>)
    requires Run(cfg, r) && a <= b < |r| && forall i :: 0 <= i < |tickets| ==> tickets[i] !in r[b].running
    ensures forall i :: 0 <= i < |r[a].submitted| && r[a].submitted[i].ticket in tickets ==> i in r[b].finished
  {
    hide Inv, Step;
    RunLater(cfg, r, a, b);
    RunInv(cfg, r, b);
    forall i | 0 <= i < |r[a].submitted| && r[a].submitted[i].ticket in tickets ensures i in r[b].finished {
      FinishedOrLive(cfg, r[b], i);
      assert r[b].submitted[i] == r[a].submitted[i];
    }
  }

  /** The other way round: a ticket belongs to at most one task that has not finished. */
  lemma LiveTaskIsUnique(cfg: Config, s: State, i: nat, j: nat)
    requires Inv(cfg, s) && i < |s.submitted| && j < |s.submitted| && i !in s.finished && j !in s.finished
    requires s.submitted[i].ticket == s.submitted[j].ticket
    ensures i == j
  {
    hide Disjoint, Capacity, Awaited, Held;
    var k := Started(s);
    if i >= k {
      assert s.queue[i - k] == s.submitted[i];
    } else {
      var p :| p in s.executing && s.executing[p].id == i;
      assert s.executing[p] == s.submitted[i];
    }
    if j >= k {
      assert s.queue[j - k] == s.submitted[j];
    } else {
      var q :| q in s.executing && s.executing[q].id == j;
      assert s.executing[q] == s.submitted[j];
    }
  }

  /** While a task is queued, some thread is on its feet: executing, or on its way to the queue. */
  lemma QueueIsServed(cfg: Config, s: State)
    requires Inv(cfg, s) && cfg.maxThreads > 0 && s.queue != []
    ensures s.executing != map[] || s.starting != {} || s.awake != {}
  {
    hide Disjoint, History;
    TicketCount(s);
    if s.blocked == {} {
      assert |s.blocked| == 0;
    }
  }

  // ---------------------------------------------------------------- how many threads there are

  /** Counted threads that execute nothing. */
  function Idle(s: State): nat {
    |s.starting| + |s.blocked| + |s.awake|
  }

  /** What became of a thread between two states that are one step apart. */
  ghost predicate Left(s: State, s': State, pt: nat) {
    pt in s'.stopping && pt !in s.stopping
  }

  ghost predicate FellAsleep(s: State, s': State, pt: nat) {
    pt in s'.blocked && pt !in s.blocked
  }

  /** A thread leaves or falls asleep only when nothing is queued. It leaves if as many idle threads remain as are
      allowed to wait, and falls asleep if no more are idle than that, itself among them. */
  ghost predicate KeepsIdle(cfg: Config, s: State, s': State, pt: nat) {
    && (Left(s, s', pt) ==> s'.queue == [] && Idle(s') >= cfg.maxWaiting)
    && (FellAsleep(s, s', pt) ==> s'.queue == [] && Idle(s') <= cfg.maxWaiting)
  }

  /** The number of threads grows exactly with a submission that finds as many tasks as threads, below the limit; it
      falls exactly when a thread leaves. */
  ghost predicate CountsThreads(cfg: Config, s: State, s': State) {
    && (s'.nThreads > s.nThreads <==> |s'.submitted| > |s.submitted| && s.nThreads == s.nRunning < cfg.maxThreads)
    && (s'.nThreads < s.nThreads <==> exists pt :: Left(s, s', pt))
    && s.nThreads - 1 <= s'.nThreads <= s.nThreads + 1
  }

  lemma IdleCount(cfg: Config, s: State)
    requires Inv(cfg, s)
    ensures s.nThreads == Idle(s) + |s.executing| && s.nRunning == |s.queue| + |s.executing|
  {
    hide Disjoint, Awaited, History, LiveTickets, Held;
  }

  lemma LookIdle(cfg: Config, s: State, t: State, pt: nat, w: nat)
    requires Inside(cfg, t, pt) && t.stopping == s.stopping && t.blocked == s.blocked && t.submitted == s.submitted
    requires t.nThreads == s.nThreads && Inv(cfg, Look(cfg, t, pt))
    ensures KeepsIdle(cfg, s, Look(cfg, t, pt), w) && CountsThreads(cfg, s, Look(cfg, t, pt))
  {
    hide Disjoint, Tickets, History, Inv;
    var s' := Look(cfg, t, pt);
    IdleCount(cfg, s');
    if s'.nThreads < s.nThreads {
      assert Left(s, s', pt);
    }
  }

  lemma SubmitIdle(cfg: Config, s: State, newThread: nat, ticket: nat, who: nat, w: nat)
    ensures KeepsIdle(cfg, s, Submit(cfg, s, newThread, ticket, who), w)
    ensures CountsThreads(cfg, s, Submit(cfg, s, newThread, ticket, who))
  {
  }

  lemma EndKeeps(s: State, pt: nat)
    requires pt in s.executing
    ensures var t := End(s, pt); t.stopping == s.stopping && t.blocked == s.blocked && t.nThreads == s.nThreads
  {
  }

  /** No step lets go of a thread that is needed, or keeps one that is not. */
  lemma StepIdle(cfg: Config, s: State, s': State, w: nat)
    requires Inv(cfg, s) && Step(cfg, s, s')
    ensures KeepsIdle(cfg, s, s', w) && CountsThreads(cfg, s, s')
  {
    hide Inv, Submit, Look, End, Inside;
    if newThread: nat, ticket: nat, who: nat :|
        MaySubmit(s, newThread, ticket, who) && s' == Submit(cfg, s, newThread, ticket, who) {
      SubmitIdle(cfg, s, newThread, ticket, who, w);
    } else if pt: nat :| pt in s.starting && s' == Look(cfg, s.(starting := s.starting - {pt}), pt) {
      StartInside(cfg, s, pt);
      LookInv(cfg, s.(starting := s.starting - {pt}), pt);
      LookIdle(cfg, s, s.(starting := s.starting - {pt}), pt, w);
    } else if pt: nat :| pt in s.executing && s' == Look(cfg, End(s, pt), pt) {
      EndInside(cfg, s, pt);
      EndKeeps(s, pt);
      EndLater(s, pt);
      LookInv(cfg, End(s, pt), pt);
      LookIdle(cfg, s, End(s, pt), pt, w);
    } else if pt: nat :| pt in s.awake && s' == Look(cfg, s.(awake := s.awake - {pt}), pt) {
      AwakeInside(cfg, s, pt);
      LookInv(cfg, s.(awake := s.awake - {pt}), pt);
      LookIdle(cfg, s, s.(awake := s.awake - {pt}), pt, w);
    }
  }
}
