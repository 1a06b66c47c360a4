/** The pool's methods, each shown to be one step of both protocols. */
module ThreadPool {
  import opened Collections
  import opened PoolProtocol
  import WaitProtocol

  /** What one pass of the loop in getRunnable() decides: hand out a task, leave, or wait on the condition. */
  datatype Outcome = Take(task: Task) | Leave | Sleep

  ghost predicate Distinct(s: seq<nat>) {
    forall i, j :: 0 <= i < j < |s| ==> s[i] != s[j]
  }

  function Succ(t: nat): nat {
    if t + 1 == TICKETS then 0 else t + 1
  }

  /** The k-th ticket number after t, in 32 bits. */
  function After(t: nat, k: nat): nat {
    (t + k) % 0x1_0000_0000
  }

  lemma AfterInRange(t: nat, k: nat)
    requires t < TICKETS && k <= TICKETS
    ensures After(t, k) == if t + k < TICKETS then t + k else t + k - TICKETS
  {
  }

  lemma AfterNext(t: nat, k: nat)
    requires t < TICKETS && k < TICKETS
    ensures After(t, 0) == t && After(t, k + 1) == Succ(After(t, k))
  {
    AfterInRange(t, k);
    AfterInRange(t, k + 1);
  }

  ghost predicate Unusable(t: nat, live: set<nat>) {
    t == ILLEGAL_TICKET || t in live
  }

  /** The numbers passed over so far. */
  ghost function Passed(t: nat, k: nat): set<nat> {
    if k == 0 then {} else Passed(t, k - 1) + {After(t, k)}
  }

  lemma {:induction false} PassedCount(t: nat, k: nat)
    requires t < TICKETS && k <= TICKETS
    ensures |Passed(t, k)| == k
  {
    if k > 0 {
      PassedCount(t, k - 1);
      if After(t, k) in Passed(t, k - 1) {
        var j := PassedAt(t, k - 1, After(t, k));
        AfterInRange(t, k);
        AfterInRange(t, j);
      }
    }
  }

  lemma {:induction false} PassedAt(t: nat, k: nat, x: nat) returns (j: nat)
    requires x in Passed(t, k)
    ensures 1 <= j <= k && x == After(t, j)
  {
    if x == After(t, k) {
      j := k;
    } else {
      j := PassedAt(t, k - 1, x);
    }
  }

  lemma {:induction false} PassedUnusable(t: nat, k: nat, live: set<nat>)
    requires forall j :: 1 <= j <= k ==> Unusable(After(t, j), live)
    ensures Passed(t, k) <= live + {ILLEGAL_TICKET}
  {
    if k > 0 {
      PassedUnusable(t, k - 1, live);
      assert Unusable(After(t, k), live);
    }
  }

  /** Not all the numbers passed over can have been unusable, as long as fewer tickets are live than there are. */
  lemma PassedBound(t: nat, k: nat, live: set<nat>)
    requires t < TICKETS && k <= TICKETS && forall j :: 1 <= j <= k ==> Unusable(After(t, j), live)
    ensures k <= |live| + 1
  {
    PassedCount(t, k);
    PassedUnusable(t, k, live);
    SubsetSize(Passed(t, k), live + {ILLEGAL_TICKET});
  }

  /** The vector of threads lists every thread of the pool once. */
  ghost predicate Lists(threads: seq<nat>, s: State, extra: set<nat>) {
    Distinct(threads) && forall t: nat :: t in threads <==> Known(s, t) || t in extra
  }

  lemma SubmitLists(cfg: Config, s: State, threads: seq<nat>, newThread: nat, ticket: nat, who: nat)
    requires Lists(threads, s, {}) && newThread !in threads && (s.blocked != {} ==> who in s.blocked)
    ensures s.nThreads == s.nRunning && s.nThreads < cfg.maxThreads ==>
      Lists(threads + [newThread], Submit(cfg, s, newThread, ticket, who), {})
    ensures !(s.nThreads == s.nRunning && s.nThreads < cfg.maxThreads) ==>
      Lists(threads, Submit(cfg, s, newThread, ticket, who), {})
  {
    var s' := Submit(cfg, s, newThread, ticket, who);
    forall t: nat ensures Known(s', t) <==> Known(WithThread(cfg, s, newThread), t) {
    }
  }

  lemma InitialLists()
    ensures Lists([], Initial(), {})
  {
    assert forall t: nat :: !Known(Initial(), t);
  }

  lemma InitialFields()
    ensures Initial().nThreads == Initial().nRunning == Initial().currTicket == 0 && Initial().queue == []
    ensures Initial().running == {} && WaitProtocol.Initial().running == map[]
  {
  }

  lemma Initialized(p: Pool)
    requires p.model == Initial() && p.waits == WaitProtocol.Initial()
    requires p.nThreads == p.nRunning == p.currticket == 0 && p.threads == [] && p.toexecute == [] && p.running == map[]
    ensures p.Valid()
  {
    hide Inv, Known, Lists, Initial, WaitProtocol.Initial;
    InitialInv(p.Cfg());
    InitialLists();
    InitialFields();
  }

  /** What execute() changes, field by field. */
  lemma Submitted(cfg: Config, s: State, newThread: nat, ticket: nat, who: nat)
    ensures var s' := Submit(cfg, s, newThread, ticket, who);
      && s'.queue == s.queue + [Task(|s.submitted|, ticket)] && s'.running == s.running + {ticket}
      && s'.nRunning == s.nRunning + 1 && s'.currTicket == ticket
      && s'.nThreads == if s.nThreads == s.nRunning && s.nThreads < cfg.maxThreads then s.nThreads + 1 else s.nThreads
  {
  }

  lemma SubmitIsStep(cfg: Config, s: State, newThread: nat, ticket: nat, who: nat)
    requires !Known(s, newThread) && ticket < TICKETS && !Unusable(ticket, s.running)
    requires s.blocked != {} ==> who in s.blocked
    ensures MaySubmit(s, newThread, ticket, who) && Step(cfg, s, Submit(cfg, s, newThread, ticket, who))
  {
    hide Submit, Known, Look, End;
  }

  /** A thread has to be started for the new task. */
  predicate Grows(cfg: Config, s: State) {
    s.nThreads == s.nRunning && s.nThreads < cfg.maxThreads
  }

  /** All that execute() has to keep. */
  lemma Executed(cfg: Config, s: State, threads: seq<nat>, newThread: nat, ticket: nat, who: nat)
    requires Inv(cfg, s) && Lists(threads, s, {}) && newThread !in threads && ticket < TICKETS
    requires !Unusable(ticket, s.running) && (s.blocked != {} ==> who in s.blocked)
    ensures MaySubmit(s, newThread, ticket, who)
    ensures var s' := Submit(cfg, s, newThread, ticket, who);
            && Step(cfg, s, s') && Inv(cfg, s')
            && Lists(threads + if Grows(cfg, s) then [newThread] else [], s', {})
            && s'.queue == s.queue + [Task(|s.submitted|, ticket)] && s'.running == s.running + {ticket}
            && s'.nRunning == s.nRunning + 1 && s'.currTicket == ticket
            && s'.nThreads == s.nThreads + if Grows(cfg, s) then 1 else 0
  {
    hide Inv, Lists, Submit, Known, Step, MaySubmit, Unusable;
    assert threads + [] == threads;
    NotListed(threads, s, newThread);
    SubmitIsStep(cfg, s, newThread, ticket, who);
    Submitted(cfg, s, newThread, ticket, who);
    SubmitLists(cfg, s, threads, newThread, ticket, who);
    SubmitInv(cfg, s, newThread, ticket, who);
  }

  lemma IssueIsStep(s: WaitProtocol.State, t: nat)
    requires t !in s.running
    ensures WaitProtocol.Step(s, WaitProtocol.Submit(s, t))
    ensures WaitProtocol.Submit(s, t).running == s.running[t := WaitProtocol.NoWaiter]
  {
  }

  lemma EndIsStep(s: WaitProtocol.State, t: nat)
    requires t in s.running
    ensures WaitProtocol.Step(s, WaitProtocol.End(s, t))
  {
  }

  class Pool {
    const maxThreads: nat
    const maxWaiting: nat
    var nThreads: nat
    var nRunning: nat
    var threads: seq<nat>
    var toexecute: seq<Task>
    var running: map<nat, WaitProtocol.Waiter>
    var currticket: nat
    ghost var model: State
    ghost var waits: WaitProtocol.State

    ghost function Cfg(): Config
      reads this
    {
      Config(maxThreads, maxWaiting)
    }

    /** The fields hold what the protocol states say. */
    ghost predicate Mirrors()
      reads this
    {
      && model.nThreads == nThreads && model.nRunning == nRunning && model.queue == toexecute
      && model.running == running.Keys && model.currTicket == currticket && currticket < TICKETS
      && waits.running == running
    }

    ghost predicate Valid()
      reads this
    {
      Mirrors() && Lists(threads, model, {}) && Inv(Cfg(), model)
    }

    /** Between taking the mutex and deciding what to do, for the thread that holds it. */
    ghost predicate Within(pt: nat)
      reads this
    {
      Mirrors() && Lists(threads, model, {pt}) && Inside(Cfg(), model, pt)
    }

    constructor (maxThreads: nat, maxWaiting: nat)
      ensures Valid() && model == Initial() && waits == WaitProtocol.Initial()
      ensures this.maxThreads == maxThreads && this.maxWaiting == maxWaiting
    {
      hide *;
      this.maxThreads, this.maxWaiting := maxThreads, maxWaiting;
      nThreads, nRunning, threads, toexecute, running, currticket := 0, 0, [], [], map[], 0;
      model, waits := Initial(), WaitProtocol.Initial();
      new;
      Initialized(this);
    }

    /** The next ticket number that is neither live nor the illegal one. */
    method NextTicket() returns (ghost passed: nat)
      requires currticket < TICKETS && |running| < TICKETS - 1
      modifies `currticket
      ensures currticket < TICKETS && !Unusable(currticket, running.Keys)
      ensures currticket == After(old(currticket), passed + 1)
      ensures forall j :: 1 <= j <= passed ==> Unusable(After(old(currticket), j), running.Keys)
    {
      hide After;
      passed := 0;
      ghost var before := currticket;
      AfterNext(before, 0);
      currticket := Succ(currticket);
      while currticket in running || currticket == ILLEGAL_TICKET
        invariant passed < TICKETS && currticket == After(before, passed + 1) && currticket < TICKETS
        invariant forall j :: 1 <= j <= passed ==> Unusable(After(before, j), running.Keys)
        decreases TICKETS - passed
      {
        passed := passed + 1;
        PassedBound(before, passed, running.Keys);
        assert |running| == |running.Keys|;
        AfterNext(before, passed);
        currticket := Succ(currticket);
      }
    }

    /** A new thread for the next task, if all others are taken and another one is allowed. */
    method AddThread(newThread: nat)
      requires model.nThreads == nThreads && model.nRunning == nRunning
      modifies `nThreads, `threads
      ensures nThreads == old(nThreads) + if Grows(Cfg(), model) then 1 else 0
      ensures threads == old(threads) + if Grows(Cfg(), model) then [newThread] else []
    {
      if nThreads >= nRunning && nThreads - nRunning == 0 && nThreads < maxThreads {
        nThreads := nThreads + 1;
        threads := threads + [newThread];
      }
    }

    /** Adds a thread if needed, finds a ticket and queues a new task. Its number stands for the
        runnable; `newThread` is what `new` would return, `who` the thread that notify_one would wake. */
    method Execute(runnable: nat, newThread: nat, ghost who: nat) returns (ticket: nat, ghost passed: nat)
      requires Valid() && runnable == |model.submitted| && newThread !in threads && |running| < TICKETS - 1
      requires model.blocked != {} ==> who in model.blocked
      modifies this
      ensures Valid() && MaySubmit(old(model), newThread, ticket, who)
      ensures model == Submit(Cfg(), old(model), newThread, ticket, who)
      ensures Step(Cfg(), old(model), model)
      ensures running == old(running)[ticket := WaitProtocol.NoWaiter]
      ensures waits == WaitProtocol.Submit(old(waits), ticket) && WaitProtocol.Step(old(waits), waits)
      ensures ticket == After(old(currticket), passed + 1)
      ensures forall j :: 1 <= j <= passed ==> Unusable(After(old(currticket), j), old(running).Keys)
    {
      hide Inv, Lists, After, Submit, Step, MaySubmit, WaitProtocol.Step, WaitProtocol.Submit, Grows;
      AddThread(newThread);
      passed := NextTicket();
      ticket := currticket;
      Executed(Cfg(), model, old(threads), newThread, ticket, who);
      IssueIsStep(waits, ticket);
      toexecute := toexecute + [Task(runnable, ticket)];
      running := running[ticket := WaitProtocol.NoWaiter];
      nRunning := nRunning + 1;
      model := Submit(Cfg(), model, newThread, ticket, who);
      waits := WaitProtocol.Submit(waits, ticket);
    }

    /** What the outcome of a pass says about the pool: the oldest task is taken; a thread leaves only if as many
        idle ones remain as may wait, and sleeps only if no more are idle than that. */
    ghost predicate Sensible(r: Outcome, queued: seq<Task>)
      reads this
    {
      match r
      case Take(task) => queued == [task] + toexecute
      case Leave => queued == toexecute == [] && nThreads >= nRunning + maxWaiting
      case Sleep => queued == toexecute == [] && nRunning <= nThreads <= nRunning + maxWaiting
    }

    /** One pass of the loop in getRunnable(), with the mutex held. */
    method Pass(pt: nat) returns (r: Outcome)
      requires Within(pt)
      modifies this
      ensures Valid() && model == Look(Cfg(), old(model), pt)
      ensures r == Decision(Cfg(), old(model)) && Sensible(r, old(toexecute))
      ensures running == old(running) && currticket == old(currticket) && waits == old(waits)
    {
      hide Inv, Inside, Lists, Look, Known;
      ghost var s := model;
      LookLists(Cfg(), s, threads, pt);
      LookInv(Cfg(), s, pt);
      Looked(Cfg(), s, pt);
      if |toexecute| == 0 {
        if nThreads >= nRunning && nThreads - nRunning > maxWaiting {
          nThreads := nThreads - 1;
          r := Leave;
        } else {
          r := Sleep;
        }
      } else {
        r := Take(toexecute[0]);
        toexecute := toexecute[1..];
      }
      model := Look(Cfg(), s, pt);
    }

    /** getRunnable() up to its return or its first wait. With `del` the thread has just executed a task: its
        ticket is given up and whoever waits for it is notified. */
    method GetRunnable(todel: nat, del: bool, pt: nat) returns (r: Outcome, notified: WaitProtocol.Waiter)
      requires Valid()
      requires if del then pt in model.executing && todel == model.executing[pt].ticket else pt in model.starting
      modifies this
      ensures Valid() && model == Look(Cfg(), Inbound(old(model), del, pt), pt)
      ensures Step(Cfg(), old(model), model)
      ensures r == Decision(Cfg(), Inbound(old(model), del, pt)) && Sensible(r, old(toexecute))
      ensures del ==> todel in old(running) && notified == old(running)[todel] && running == old(running) - {todel}
      ensures del ==> waits == WaitProtocol.End(old(waits), todel) && WaitProtocol.Step(old(waits), waits)
      ensures !del ==> running == old(running) && waits == old(waits)
    {
      hide Inv, Inside, Lists, Look, Known, Decision, WaitProtocol.Step;
      notified := WaitProtocol.NoWaiter;
      InboundFields(Cfg(), model, del, pt);
      InboundLists(threads, model, del, pt);
      model := Inbound(model, del, pt);
      if del {
        nRunning := nRunning - 1;
        if todel in running {
          notified := running[todel];
          running := running - {todel};
          EndIsStep(waits, todel);
          waits := WaitProtocol.End(waits, todel);
        }
      }
      r := Pass(pt);
    }

    /** A thread that comes back from waiting on the condition. */
    method Resume(pt: nat) returns (r: Outcome)
      requires Valid() && pt in model.awake
      modifies this
      ensures Valid() && model == Look(Cfg(), old(model).(awake := old(model).awake - {pt}), pt)
      ensures Step(Cfg(), old(model), model)
      ensures r == Decision(Cfg(), old(model)) && Sensible(r, old(toexecute))
      ensures running == old(running) && waits == old(waits)
    {
      hide Inv, Inside, Lists, Look, Known;
      AwakeInside(Cfg(), model, pt);
      AwakeLists(threads, model, pt);
      model := model.(awake := model.awake - {pt});
      r := Pass(pt);
    }

    /** A thread that was told to stop takes itself off the list; it is always found. */
    method Remove(pt: nat)
      requires Valid() && pt in model.stopping
      modifies this
      ensures Valid() && model == old(model).(stopping := old(model).stopping - {pt})
      ensures Step(Cfg(), old(model), model)
      ensures pt in old(threads) && pt !in threads && multiset(threads) == multiset(old(threads)) - multiset{pt}
      ensures running == old(running) && waits == old(waits)
    {
      hide Inv;
      RemoveInv(Cfg(), model, pt);
      assert pt in threads;
      for i := 0 to |threads|
        invariant unchanged(this) && pt !in threads[..i]
      {
        if threads[i] == pt {
          RemoveLists(Cfg(), threads, model, pt, i);
          threads := threads[..i] + threads[i + 1..];
          model := model.(stopping := model.stopping - {pt});
          return;
        }
      }
      assert false;
    }

    method IsRunning(ticket: nat) returns (r: bool)
      ensures r <==> ticket in running
    {
      r := ticket in running;
    }

    /** The start of waitFor(): the caller's condition is stored with every ticket that is still live. */
    method Register(tickets: seq<nat>, caller: nat)
      requires Valid()
      modifies `running, `waits
      ensures Valid() && running == WaitProtocol.Registered(old(running), tickets, caller)
      ensures waits == old(waits).(running := running)
    {
      hide Inv;
      for i := 0 to |tickets|
        invariant waits == old(waits)
        invariant running == WaitProtocol.Registered(old(running), tickets[..i], caller)
      {
        assert tickets[..i + 1] == tickets[..i] + [tickets[i]];
        if tickets[i] in running {
          running := running[tickets[i] := WaitProtocol.Waiter(caller)];
        }
      }
      assert tickets[..|tickets|] == tickets;
      waits := waits.(running := running);
    }

    /** The test of the loop in waitFor(): is any of the tickets live? */
    method AnyRunning(tickets: seq<nat>) returns (r: bool)
      ensures r <==> WaitProtocol.AnyLive(running, tickets)
    {
      r := false;
      for i := 0 to |tickets|
        invariant !r && forall j :: 0 <= j < i ==> tickets[j] !in running
      {
        var live := IsRunning(tickets[i]);
        if live {
          r := true;
          break;
        }
      }
    }

    /** The end of waitFor(): the caller's condition is taken back, where nobody else has stored theirs since. */
    method Unregister(tickets: seq<nat>, caller: nat)
      requires Valid()
      modifies `running, `waits
      ensures Valid() && running == WaitProtocol.Unregistered(old(running), tickets, caller)
      ensures waits == old(waits).(running := running)
    {
      hide Inv;
      for i := 0 to |tickets|
        invariant waits == old(waits)
        invariant running == WaitProtocol.Unregistered(old(running), tickets[..i], caller)
      {
        assert tickets[..i + 1] == tickets[..i] + [tickets[i]];
        if tickets[i] in running {
          if running[tickets[i]] == WaitProtocol.Waiter(caller) {
            running := running[tickets[i] := WaitProtocol.NoWaiter];
          }
        }
      }
      assert tickets[..|tickets|] == tickets;
      waits := waits.(running := running);
    }

    /** Every task submitted so far under one of these tickets has finished. */
    ghost predicate AllFinished(tickets: seq<nat>)
      reads this
    {
      forall i :: 0 <= i < |model.submitted| && model.submitted[i].ticket in tickets ==> i in model.finished
    }

    /** When no ticket in the list is live. */
    lemma NoneLive(tickets: seq<nat>)
      requires Valid() && !WaitProtocol.AnyLive(running, tickets)
      ensures AllFinished(tickets)
    {
      hide Inv;
      forall i | 0 <= i < |model.submitted| && model.submitted[i].ticket in tickets ensures i in model.finished {
        FinishedOrLive(Cfg(), model, i);
      }
    }

    /** The loop of waitFor() up to its return or its next wait. */
    method LookForEnd(tickets: seq<nat>, caller: nat, expired: bool) returns (sleeps: bool, ret: bool)
      requires Valid()
      modifies `running, `waits
      ensures Valid() && waits == WaitProtocol.Look(old(waits), caller, tickets, expired)
      ensures sleeps <==> caller in waits.waiting
      ensures !sleeps ==> (ret <==> !WaitProtocol.AnyLive(running, tickets)) && (ret || expired)
      ensures sleeps ==> !ret && !expired && WaitProtocol.AnyLive(running, tickets)
      ensures ret ==> AllFinished(tickets)
    {
      hide Inv, WaitProtocol.AnyLive;
      var live := AnyRunning(tickets);
      sleeps, ret := live && !expired, !live;
      if ret {
        NoneLive(tickets);
      }
      if sleeps {
        waits := WaitProtocol.Look(waits, caller, tickets, expired);
      } else {
        SameLive(running, WaitProtocol.Unregistered(running, tickets, caller), tickets);
        Unregister(tickets, caller);
        waits := waits.(waiting := waits.waiting - {caller});
      }
    }

    /** waitFor() up to its return or its first wait. It returns true exactly if no ticket is live any more, and then
        all tasks submitted under them have finished; false means that the time is over. */
    method WaitFor(tickets: seq<nat>, caller: nat, expired: bool) returns (sleeps: bool, ret: bool)
      requires Valid() && caller !in waits.waiting
      modifies `running, `waits
      ensures Valid() && waits == WaitProtocol.Enter(old(waits), caller, tickets, expired)
      ensures (sleeps <==> caller in waits.waiting) && WaitProtocol.Step(old(waits), waits)
      ensures !sleeps ==> (ret <==> !WaitProtocol.AnyLive(running, tickets)) && (ret || expired)
      ensures ret ==> AllFinished(tickets)
    {
      hide Inv, WaitProtocol.AnyLive, WaitProtocol.Look, AllFinished;
      Register(tickets, caller);
      sleeps, ret := LookForEnd(tickets, caller, expired);
      assert waits == WaitProtocol.Enter(old(waits), caller, tickets, expired);
    }

    /** waitFor() after the caller has been woken, up to its return or its next wait; with the same results. */
    method WaitAgain(tickets: seq<nat>, caller: nat, expired: bool) returns (sleeps: bool, ret: bool)
      requires Valid() && caller in waits.waiting && caller !in waits.asleep && waits.waiting[caller] == tickets
      modifies `running, `waits
      ensures Valid() && waits == WaitProtocol.Look(old(waits), caller, tickets, expired)
      ensures (sleeps <==> caller in waits.waiting) && WaitProtocol.Step(old(waits), waits)
      ensures !sleeps ==> (ret <==> !WaitProtocol.AnyLive(running, tickets)) && (ret || expired)
      ensures ret ==> AllFinished(tickets)
    {
      hide Inv, WaitProtocol.AnyLive, WaitProtocol.Look, AllFinished;
      sleeps, ret := LookForEnd(tickets, caller, expired);
    }

    /** A sleeping caller of waitFor() wakes up without a notification, as after a time-out. */
    ghost method WakeUp(caller: nat)
      requires Valid() && caller in waits.asleep
      modifies `waits
      ensures Valid() && waits == WaitProtocol.Wake(old(waits), caller) && WaitProtocol.Step(old(waits), waits)
    {
      hide Inv;
      waits := WaitProtocol.Wake(waits, caller);
    }
  }

  lemma SameLive(a: map<nat, WaitProtocol.Waiter>, b: map<nat, WaitProtocol.Waiter>, tickets: seq<nat>)
    requires a.Keys == b.Keys
    ensures WaitProtocol.AnyLive(a, tickets) == WaitProtocol.AnyLive(b, tickets)
  {
  }

  /** What a thread that holds the mutex decides. */
  function Decision(cfg: Config, s: State): Outcome {
    if s.queue != [] then Take(s.queue[0])
    else if s.nThreads >= s.nRunning && s.nThreads - s.nRunning > cfg.maxWaiting then Leave
    else Sleep
  }

  /** A thread enters getRunnable(), from its start or from the end of a task. */
  function Inbound(s: State, del: bool, pt: nat): State
    requires del ==> pt in s.executing
  {
    if del then End(s, pt) else s.(starting := s.starting - {pt})
  }

  lemma InboundFields(cfg: Config, s: State, del: bool, pt: nat)
    requires Inv(cfg, s) && (if del then pt in s.executing else pt in s.starting)
    ensures Inside(cfg, Inbound(s, del, pt), pt)
    ensures var t := Inbound(s, del, pt); t.queue == s.queue && t.nThreads == s.nThreads && t.currTicket == s.currTicket
    ensures !del ==> Inbound(s, del, pt).running == s.running && Inbound(s, del, pt).nRunning == s.nRunning
    ensures del ==> s.executing[pt].ticket in s.running && s.nRunning >= 1
    ensures del ==> Inbound(s, del, pt).running == s.running - {s.executing[pt].ticket}
    ensures del ==> Inbound(s, del, pt).nRunning == s.nRunning - 1
  {
    if del {
      EndInside(cfg, s, pt);
      EndCounts(s, pt);
    } else {
      StartInside(cfg, s, pt);
    }
  }

  lemma InboundLists(threads: seq<nat>, s: State, del: bool, pt: nat)
    requires Lists(threads, s, {}) && (if del then pt in s.executing else pt in s.starting)
    ensures Lists(threads, Inbound(s, del, pt), {pt})
  {
  }

  lemma AwakeLists(threads: seq<nat>, s: State, pt: nat)
    requires Lists(threads, s, {}) && pt in s.awake
    ensures Lists(threads, s.(awake := s.awake - {pt}), {pt})
  {
  }

  lemma LookLists(cfg: Config, s: State, threads: seq<nat>, pt: nat)
    requires Lists(threads, s, {pt})
    ensures Lists(threads, Look(cfg, s, pt), {})
  {
  }

  lemma RemoveLists(cfg: Config, threads: seq<nat>, s: State, pt: nat, i: nat)
    requires Inv(cfg, s) && Lists(threads, s, {}) && i < |threads| && threads[i] == pt && pt in s.stopping
    ensures Lists(threads[..i] + threads[i + 1..], s.(stopping := s.stopping - {pt}), {})
    ensures pt !in threads[..i] + threads[i + 1..]
    ensures multiset(threads[..i] + threads[i + 1..]) == multiset(threads) - multiset{pt}
  {
    hide Capacity, Awaited, Tickets, History;
    assert threads == threads[..i] + [pt] + threads[i + 1..];
    var s' := s.(stopping := s.stopping - {pt});
    Removed(threads, i);
    forall t: nat ensures Known(s', t) <==> Known(s, t) && t != pt {
    }
  }

  lemma Removed(threads: seq<nat>, i: nat)
    requires Distinct(threads) && i < |threads|
    ensures Distinct(threads[..i] + threads[i + 1..])
    ensures forall t :: t in threads[..i] + threads[i + 1..] <==> t in threads && t != threads[i]
  {
    forall t | t in threads && t != threads[i] ensures t in threads[..i] + threads[i + 1..] {
      var j :| 0 <= j < |threads| && threads[j] == t;
      assert (threads[..i] + threads[i + 1..])[if j < i then j else j - 1] == t;
    }
  }

  lemma Looked(cfg: Config, s: State, pt: nat)
    requires Inside(cfg, s, pt)
    ensures var s' := Look(cfg, s, pt);
      && s'.queue == (if s.queue == [] then [] else s.queue[1..]) && s'.running == s.running
      && s'.nRunning == s.nRunning
      && s'.currTicket == s.currTicket
      && s'.nThreads == (if Decision(cfg, s) == Leave then s.nThreads - 1 else s.nThreads)
    ensures s.queue == [] ==> s.nThreads > s.nRunning
  {
    TicketCount(s);
  }

  lemma NotListed(threads: seq<nat>, s: State, t: nat)
    requires Lists(threads, s, {}) && t !in threads
    ensures !Known(s, t)
  {
  }
}
