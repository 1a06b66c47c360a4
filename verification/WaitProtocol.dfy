/** Waiting for tickets, as a protocol: a waiter stores its condition with every live ticket it waits for, and the end
    of a task notifies the condition stored with its ticket. The steps are the stretches of waitFor(), execute() and
    getRunnable() between taking the mutex and giving it up. */
module WaitProtocol {

  datatype Waiter = NoWaiter | Waiter(id: nat)

  /** The tickets that are live, each with the waiter stored with it; the list every waiter waits for; and the
      waiters that sleep on their condition (the others have been woken and are about to look again). */
  datatype State = State(running: map<nat, Waiter>, waiting: map<nat, seq<nat>>, asleep: set<nat>)

  function Initial(): State {
    State(map[], map[], {})
  }

  predicate AnyLive(running: map<nat, Waiter>, tickets: seq<nat>) {
    exists i :: 0 <= i < |tickets| && tickets[i] in running
  }

  /** The caller's condition is stored with every live ticket of the list. */
  function Registered(running: map<nat, Waiter>, tickets: seq<nat>, caller: nat): (r: map<nat, Waiter>)
    ensures r.Keys == running.Keys
  {
    map t | t in running :: if t in tickets then Waiter(caller) else running[t]
  }

  /** The caller's condition is taken back, where nobody else has stored theirs since. */
  function Unregistered(running: map<nat, Waiter>, tickets: seq<nat>, caller: nat): (r: map<nat, Waiter>)
    ensures r.Keys == running.Keys
  {
    map t | t in running :: if t in tickets && running[t] == Waiter(caller) then NoWaiter else running[t]
  }

  // ---------------------------------------------------------------- the steps

  /** A task is submitted under a ticket that is not live. */
  function Submit(s: State, t: nat): State {
    s.(running := s.running[t := NoWaiter])
  }

  /** A task ends: whoever is stored with its ticket is woken, and the ticket is given up. */
  function End(s: State, t: nat): State
    requires t in s.running
  {
    s.(running := s.running - {t}, asleep := if s.running[t].Waiter? then s.asleep - {s.running[t].id} else s.asleep)
  }

  /** The loop of waitFor() up to its return or its next wait. */
  function Look(s: State, w: nat, tickets: seq<nat>, expired: bool): State {
    if AnyLive(s.running, tickets) && !expired
    then s.(waiting := s.waiting[w := tickets], asleep := s.asleep + {w})
    else s.(waiting := s.waiting - {w}, running := Unregistered(s.running, tickets, w))
  }

  /** A call of waitFor(), up to its return or its first wait. */
  function Enter(s: State, w: nat, tickets: seq<nat>, expired: bool): State {
    Look(s.(running := Registered(s.running, tickets, w)), w, tickets, expired)
  }

  /** A sleeping waiter wakes up without a notification, as after a time-out. */
  function Wake(s: State, w: nat): State {
    s.(asleep := s.asleep - {w})
  }

  ghost predicate Step(s: State, s': State) {
    || (exists t :: t !in s.running && s' == Submit(s, t))
    || (exists t :: t in s.running && s' == End(s, t))
    || (exists w, tickets: seq<nat>, expired :: w !in s.waiting && s' == Enter(s, w, tickets, expired))
    || (exists w, expired :: w in s.waiting && w !in s.asleep && s' == Look(s, w, s.waiting[w], expired))
    || (exists w :: w in s.asleep && s' == Wake(s, w))
  }

  // ---------------------------------------------------------------- stored conditions exist

  ghost predicate Run(r: seq<State>) {
    r != [] && r[0] == Initial() && forall i :: 0 < i < |r| ==> Step(r[i - 1], r[i])
  }

  /** A stored condition belongs to a caller that is still waiting for that ticket, and so does every sleeper's. */
  ghost predicate Belongs(s: State) {
    && (forall t, w :: t in s.running && s.running[t] == Waiter(w) ==> w in s.waiting && t in s.waiting[w])
    && forall w :: w in s.asleep ==> w in s.waiting
  }

  lemma EnterBelongs(s: State, w: nat, tickets: seq<nat>, expired: bool)
    requires Belongs(s) && w !in s.waiting
    ensures Belongs(Enter(s, w, tickets, expired))
  {
    hide AnyLive;
    var s' := Enter(s, w, tickets, expired);
    forall t, v | t in s'.running && s'.running[t] == Waiter(v) ensures v in s'.waiting && t in s'.waiting[v] {
      if v != w {
        assert s.running[t] == Waiter(v);
      }
    }
  }

  lemma LookBelongs(s: State, w: nat, expired: bool)
    requires Belongs(s) && w in s.waiting && w !in s.asleep
    ensures Belongs(Look(s, w, s.waiting[w], expired))
  {
    hide AnyLive;
    var s' := Look(s, w, s.waiting[w], expired);
    forall t, v | t in s'.running && s'.running[t] == Waiter(v) ensures v in s'.waiting && t in s'.waiting[v] {
      assert s.running[t] == Waiter(v);
    }
  }

  lemma EndBelongs(s: State, t: nat)
    requires Belongs(s) && t in s.running
    ensures Belongs(End(s, t))
  {
  }

  /** Every step keeps this, whatever tickets are given out again and however many wait for the same one. */
  lemma StepBelongs(s: State, s': State)
    requires Belongs(s) && Step(s, s')
    ensures Belongs(s')
  {
    hide End, Enter, Look;
    if t :| t !in s.running && s' == Submit(s, t) {
    } else if t :| t in s.running && s' == End(s, t) {
      EndBelongs(s, t);
    } else if w, tickets: seq<nat>, expired :| w !in s.waiting && s' == Enter(s, w, tickets, expired) {
      EnterBelongs(s, w, tickets, expired);
    } else if w, expired :| w in s.waiting && w !in s.asleep && s' == Look(s, w, s.waiting[w], expired) {
      LookBelongs(s, w, expired);
    }
  }

  /** In every run, the condition that the end of a task notifies is that of a call that has not returned and waits for
      this ticket. */
  lemma {:induction false} RunBelongs(r: seq<State>, k: nat)
    requires Run(r) && k < |r|
    ensures Belongs(r[k])
  {
    hide Step, Belongs;
    if k == 0 {
      NothingStored();
    } else {
      RunBelongs(r, k - 1);
      StepBelongs(r[k - 1], r[k]);
    }
  }

  lemma NothingStored()
    ensures Belongs(Initial())
  {
  }

  // ---------------------------------------------------------------- no wake-up is lost

  /** Nobody else waits for t. */
  ghost predicate WaitsAlone(s: State, w: nat, t: nat) {
    forall v :: v in s.waiting && v != w ==> t !in s.waiting[v]
  }

  /** A step under which every ticket has one waiter at most, and no ticket that is waited for is given out again. */
  ghost predicate FairStep(s: State, s': State) {
    || (exists t :: t !in s.running && (forall v :: v in s.waiting ==> t !in s.waiting[v]) && s' == Submit(s, t))
    || (exists t :: t in s.running && s' == End(s, t))
    || (exists w, tickets: seq<nat>, expired ::
          && w !in s.waiting && (forall i :: 0 <= i < |tickets| ==> WaitsAlone(s, w, tickets[i]))
          && s' == Enter(s, w, tickets, expired))
    || (exists w, expired :: w in s.waiting && w !in s.asleep && s' == Look(s, w, s.waiting[w], expired))
    || (exists w :: w in s.asleep && s' == Wake(s, w))
  }

  /** Every live ticket in a waiter's list has that waiter stored with it. */
  ghost predicate Stored(s: State) {
    forall w, t :: w in s.waiting && t in s.waiting[w] && t in s.running ==> s.running[t] == Waiter(w)
  }

  /** Who sleeps still waits for a task that has not ended. */
  ghost predicate Sleeping(s: State) {
    forall w :: w in s.asleep ==> w in s.waiting && AnyLive(s.running, s.waiting[w])
  }

  ghost predicate Apart(s: State) {
    forall v, w, t :: v in s.waiting && w in s.waiting && v != w && t in s.waiting[v] ==> t !in s.waiting[w]
  }

  ghost predicate Inv(s: State) {
    Stored(s) && Sleeping(s) && Apart(s)
  }

  lemma SubmitInv(s: State, t: nat)
    requires Inv(s) && t !in s.running && forall v :: v in s.waiting ==> t !in s.waiting[v]
    ensures Inv(Submit(s, t))
  {
    var s' := Submit(s, t);
    forall w | w in s'.asleep ensures w in s'.waiting && AnyLive(s'.running, s'.waiting[w]) {
      StillLive(s.running, s'.running, s.waiting[w]);
    }
  }

  lemma StillLive(a: map<nat, Waiter>, b: map<nat, Waiter>, tickets: seq<nat>)
    requires AnyLive(a, tickets) && forall i :: 0 <= i < |tickets| && tickets[i] in a ==> tickets[i] in b
    ensures AnyLive(b, tickets)
  {
  }

  lemma NotAwaited(s: State, w: nat, t: nat)
    requires Stored(s) && w in s.waiting && t in s.running && s.running[t] != Waiter(w)
    ensures t !in s.waiting[w]
  {
  }

  /** The end of a task wakes its waiter, and leaves the others a live ticket. */
  lemma EndInv(s: State, t: nat)
    requires Inv(s) && t in s.running
    ensures Inv(End(s, t))
  {
    var s' := End(s, t);
    forall w | w in s'.asleep ensures w in s'.waiting && AnyLive(s'.running, s'.waiting[w]) {
      NotAwaited(s, w, t);
      StillLive(s.running, s'.running, s.waiting[w]);
    }
  }

  lemma LookInv(s: State, w: nat, tickets: seq<nat>, expired: bool)
    requires Stored(s.(waiting := s.waiting[w := tickets])) && Apart(s.(waiting := s.waiting[w := tickets]))
    requires Sleeping(s) && w !in s.asleep
    ensures Inv(Look(s, w, tickets, expired))
  {
    var s' := Look(s, w, tickets, expired);
    var waiting := s.waiting[w := tickets];
    assert waiting[w] == tickets;
    assert forall v :: v in s.waiting && v != w ==> v in waiting && waiting[v] == s.waiting[v];
    forall v | v in s'.asleep ensures v in s'.waiting && AnyLive(s'.running, s'.waiting[v]) {
      if v != w {
        StillLive(s.running, s'.running, s.waiting[v]);
      }
    }
    if !AnyLive(s.running, tickets) || expired {
      forall v, t | v in s'.waiting && t in s'.waiting[v] && t in s'.running ensures s'.running[t] == Waiter(v) {
        assert v != w && v in waiting && t in waiting[v] && t in s.running;
      }
    }
  }

  lemma EnterInv(s: State, w: nat, tickets: seq<nat>, expired: bool)
    requires Inv(s) && w !in s.waiting && forall i :: 0 <= i < |tickets| ==> WaitsAlone(s, w, tickets[i])
    ensures Inv(Enter(s, w, tickets, expired))
  {
    var t := s.(running := Registered(s.running, tickets, w));
    var waiting := s.waiting[w := tickets];
    assert forall x :: x in tickets ==> WaitsAlone(s, w, x);
    assert Stored(t.(waiting := waiting)) && Apart(t.(waiting := waiting));
    forall v | v in t.asleep ensures v in t.waiting && AnyLive(t.running, t.waiting[v]) {
      StillLive(s.running, t.running, s.waiting[v]);
    }
    LookInv(t, w, tickets, expired);
  }

  lemma FairStepInv(s: State, s': State)
    requires Inv(s) && FairStep(s, s')
    ensures Inv(s')
  {
    hide Submit, End, Enter, Look, Inv, WaitsAlone;
    if t :| t !in s.running && (forall v :: v in s.waiting ==> t !in s.waiting[v]) && s' == Submit(s, t) {
      SubmitInv(s, t);
    } else if t :| t in s.running && s' == End(s, t) {
      EndInv(s, t);
    } else if w, tickets: seq<nat>, expired :|
        && w !in s.waiting && (forall i :: 0 <= i < |tickets| ==> WaitsAlone(s, w, tickets[i]))
        && s' == Enter(s, w, tickets, expired) {
      EnterInv(s, w, tickets, expired);
    } else if w, expired :| w in s.waiting && w !in s.asleep && s' == Look(s, w, s.waiting[w], expired) {
      AgainInv(s, w, expired);
    } else if w :| w in s.asleep && s' == Wake(s, w) {
      WokenInv(s, w);
    }
  }

  lemma AgainInv(s: State, w: nat, expired: bool)
    requires Inv(s) && w in s.waiting && w !in s.asleep
    ensures Inv(Look(s, w, s.waiting[w], expired))
  {
    assert s.waiting[w := s.waiting[w]] == s.waiting;
    LookInv(s, w, s.waiting[w], expired);
  }

  lemma WokenInv(s: State, w: nat)
    requires Inv(s)
    ensures Inv(Wake(s, w))
  {
  }

  ghost predicate FairRun(r: seq<State>) {
    r != [] && r[0] == Initial() && forall i :: 0 < i < |r| ==> FairStep(r[i - 1], r[i])
  }

  lemma {:induction false} RunInv(r: seq<State>, k: nat)
    requires FairRun(r) && k < |r|
    ensures Inv(r[k])
  {
    hide FairStep, Inv;
    if k == 0 {
      NobodyWaits();
    } else {
      RunInv(r, k - 1);
      FairStepInv(r[k - 1], r[k]);
    }
  }

  lemma NobodyWaits()
    ensures Inv(Initial())
  {
  }

  /** No wake-up is lost: in every run in which each ticket has one waiter at most and is not given out again while it
      is waited for, a waiter whose tickets have all ended is awake. */
  lemma NoLostWakeUp(r: seq<State>, k: nat, w: nat)
    requires FairRun(r) && k < |r| && w in r[k].waiting && !AnyLive(r[k].running, r[k].waiting[w])
    ensures w !in r[k].asleep
  {
    RunInv(r, k);
  }

  // ---------------------------------------------------------------- both conditions are needed

  /** A waiter sleeps although nothing it waits for is live. */
  ghost predicate Lost(s: State, w: nat) {
    w in s.asleep && w in s.waiting && !AnyLive(s.running, s.waiting[w])
  }

  /** A waiter for ticket 7, asleep. */
  lemma Waits() returns (r: seq<State>)
    ensures Run(r) && r[|r| - 1] == State(map[7 := Waiter(1)], map[1 := [7]], {1})
  {
    var s0 := Initial();
    var s1 := Submit(s0, 7);
    var s2 := Enter(s1, 1, [7], false);
    assert [7][0] in s1.running;
    assert s2 == State(map[7 := Waiter(1)], map[1 := [7]], {1});
    r := [s0, s1, s2];
    assert Step(s0, s1) && Step(s1, s2);
  }

  lemma OneMore(r: seq<State>, s: State)
    requires Run(r) && Step(r[|r| - 1], s)
    ensures Run(r + [s])
  {
    hide Step;
  }

  lemma EndAlone(x: Waiter)
    requires x != Waiter(1)
    ensures Step(State(map[7 := x], map[1 := [7]], {1}), State(map[], map[1 := [7]], {1}))
  {
    var s := State(map[7 := x], map[1 := [7]], {1});
    assert End(s, 7) == State(map[], map[1 := [7]], {1});
  }

  lemma EndNotifies()
    ensures Step(State(map[7 := Waiter(1)], map[1 := [7]], {1}), State(map[], map[1 := [7]], {}))
  {
    var s := State(map[7 := Waiter(1)], map[1 := [7]], {1});
    assert End(s, 7) == State(map[], map[1 := [7]], {});
  }

  lemma SubmitAgain()
    ensures Step(State(map[], map[1 := [7]], {}), State(map[7 := NoWaiter], map[1 := [7]], {}))
  {
    var s := State(map[], map[1 := [7]], {});
    assert Submit(s, 7) == State(map[7 := NoWaiter], map[1 := [7]], {});
  }

  lemma LookAgain()
    ensures Step(State(map[7 := NoWaiter], map[1 := [7]], {}), State(map[7 := NoWaiter], map[1 := [7]], {1}))
  {
    var s := State(map[7 := NoWaiter], map[1 := [7]], {});
    assert [7][0] in s.running && s.waiting[1] == [7];
    assert Look(s, 1, s.waiting[1], false) == State(map[7 := NoWaiter], map[1 := [7]], {1});
  }

  lemma LostState(s: State)
    requires s.running == map[] && 1 in s.waiting && s.asleep >= {1}
    ensures Lost(s, 1)
  {
  }

  /** A ticket that comes round again: between its end and the waiter's next look it is given out once more, and its
      second end notifies nobody. */
  lemma ReusedTicketLosesWakeUp() returns (r: seq<State>)
    ensures Run(r) && Lost(r[|r| - 1], 1)
  {
    hide Step, Run, Lost;
    r := Waits();
    RunIsNotEmpty(r);
    EndNotifies();
    OneMore(r, State(map[], map[1 := [7]], {}));
    r := r + [State(map[], map[1 := [7]], {})];
    SubmitAgain();
    OneMore(r, State(map[7 := NoWaiter], map[1 := [7]], {}));
    r := r + [State(map[7 := NoWaiter], map[1 := [7]], {})];
    LookAgain();
    OneMore(r, State(map[7 := NoWaiter], map[1 := [7]], {1}));
    r := r + [State(map[7 := NoWaiter], map[1 := [7]], {1})];
    EndAlone(NoWaiter);
    OneMore(r, State(map[], map[1 := [7]], {1}));
    r := r + [State(map[], map[1 := [7]], {1})];
    LostState(State(map[], map[1 := [7]], {1}));
  }

  lemma RunIsNotEmpty(r: seq<State>)
    requires Run(r)
    ensures r != []
  {
  }

  /** Two waiters on one ticket: the second one replaces the first, which nobody notifies. */
  lemma SecondWaiterLosesWakeUp() returns (r: seq<State>)
    ensures Run(r) && Lost(r[|r| - 1], 1)
  {
    hide Run, Lost;
    r := Waits();
    RunIsNotEmpty(r);
    var s := r[|r| - 1];
    var s1 := Enter(s, 2, [7], false);
    assert [7][0] in s.running;
    assert s1 == State(map[7 := Waiter(2)], map[1 := [7], 2 := [7]], {1, 2});
    OneMore(r, s1);
    r := r + [s1];
    var s2 := End(s1, 7);
    OneMore(r, s2);
    r := r + [s2];
    assert s2.running == map[];
    LostState(s2);
  }
}
