/**
 * Byte quotas: a shared budget from which any number of copy loops and datagram forwarders reserve by
 * load and compare-exchange. -1 means unlimited.
 */
module Quota {
  import opened Bytes

  const UNLIMITED := -1

  // ---- One call alone ----

  function Min(a: int, b: int): int {
    if a < b then a else b
  }

  /** What a byte reservation gets out of a budget nobody else touches. */
  function Grant(budget: int, requested: nat): nat {
    if budget == UNLIMITED then requested else if budget <= 0 then 0 else Min(requested, budget)
  }

  function Spend(budget: int, n: nat): int {
    if budget == UNLIMITED then budget else budget - n
  }

  predicate Admits(budget: int, len: nat) {
    budget == UNLIMITED || len <= budget
  }

  /** An atomic cell. The weak exchange may fail without cause, but not for ever. */
  class AtomicI64 {
    var value: int
    var spurious: nat

    constructor (value: int)
      ensures this.value == value
    {
      this.value := value;
      this.spurious := *;
    }

    method CompareExchangeWeak(current: int, new_: int) returns (ok: bool, actual: int)
      modifies this
      ensures ok ==> old(value) == current && value == new_
      ensures !ok ==> value == old(value) && actual == value
      ensures !ok && old(value) == current ==> spurious < old(spurious)
      ensures ok || old(value) != current ==> spurious == old(spurious)
    {
      actual := value;
      var fail: bool := *;
      if value != current {
        return false, actual;
      }
      if fail && spurious > 0 {
        spurious := spurious - 1;
        return false, actual;
      }
      value := new_;
      ok := true;
    }
  }

  method ReserveQuota(remaining: AtomicI64, requested: nat) returns (granted: nat)
    modifies remaining
    ensures granted == Grant(old(remaining.value), requested)
    ensures remaining.value == Spend(old(remaining.value), granted)
  {
    var current := remaining.value;
    while true
      invariant current == remaining.value == old(remaining.value)
      decreases remaining.spurious
    {
      if current == UNLIMITED {
        return requested;
      }
      if current <= 0 {
        return 0;
      }
      var allowed := Min(requested, current);
      var newValue := current - allowed;
      var ok, actual := remaining.CompareExchangeWeak(current, newValue);
      if ok {
        return allowed;
      }
      current := actual;
    }
  }

  method ReserveUdpDatagram(remaining: AtomicI64, datagramLen: nat) returns (admitted: bool)
    modifies remaining
    ensures admitted <==> Admits(old(remaining.value), datagramLen)
    ensures remaining.value == if admitted then Spend(old(remaining.value), datagramLen) else old(remaining.value)
  {
    var current := remaining.value;
    while true
      invariant current == remaining.value == old(remaining.value)
      decreases remaining.spurious
    {
      if current == UNLIMITED {
        return true;
      }
      if current < datagramLen {
        return false;
      }
      var next := current - datagramLen;
      var ok, actual := remaining.CompareExchangeWeak(current, next);
      if ok {
        return true;
      }
      current := actual;
    }
  }

  // ---- Any number of calls, interleaved ----

  datatype Call = ReserveBytes(requested: nat) | ReserveDatagram(len: nat)

  /** Where a call stands: not begun, holding a loaded value, or returned. */
  datatype Phase = Begun | Loaded(current: int) | Returned(granted: nat, accepted: bool)

  datatype Task = Task(call: Call, phase: Phase)

  datatype State = State(budget: int, tasks: seq<Task>)

  /** One atomic action of one task. */
  datatype Event = Arrive(call: Call) | Load(task: nat) | Attempt(task: nat, spurious: bool)

  function Asked(call: Call): nat {
    match call
    case ReserveBytes(requested) => requested
    case ReserveDatagram(len) => len
  }

  /** What a call tries to take from a loaded value. */
  function Wanted(call: Call, current: int): nat {
    match call
    case ReserveBytes(requested) => if current <= 0 then 0 else Min(requested, current)
    case ReserveDatagram(len) => len
  }

  function AttemptResult(s: State, t: Task, spurious: bool): (int, Phase)
    requires t.phase.Loaded?
  {
    var current := t.phase.current;
    var n := Wanted(t.call, current);
    if current == UNLIMITED then
      (s.budget, Returned(Asked(t.call), true))
    else if t.call.ReserveBytes? && current <= 0 then (s.budget, Returned(0, true))
    else if t.call.ReserveDatagram? && current < n then (s.budget, Returned(0, false))
    else if s.budget == current && !spurious then (current - n, Returned(n, true))
    else (s.budget, Loaded(s.budget))
  }

  function Step(s: State, e: Event): State {
    match e
    case Arrive(call) => s.(tasks := s.tasks + [Task(call, Begun)])
    case Load(i) =>
      if i < |s.tasks| && s.tasks[i].phase.Begun? then
        s.(tasks := s.tasks[i := s.tasks[i].(phase := Loaded(s.budget))])
      else s
    case Attempt(i, spurious) =>
      if i < |s.tasks| && s.tasks[i].phase.Loaded? then
        var (budget, phase) := AttemptResult(s, s.tasks[i], spurious);
        State(budget, s.tasks[i := s.tasks[i].(phase := phase)])
      else s
  }

  function Run(budget: int, events: seq<Event>): State {
    if events == [] then State(budget, [])
    else Step(Run(budget, events[..|events| - 1]), events[|events| - 1])
  }

  function GrantedBy(t: Task): nat {
    if t.phase.Returned? then t.phase.granted else 0
  }

  function Granted(tasks: seq<Task>): nat {
    if tasks == [] then 0 else Granted(tasks[..|tasks| - 1]) + GrantedBy(tasks[|tasks| - 1])
  }

  /** A call gets no more than it asked for, and a datagram all or nothing. */
  predicate FairTask(t: Task) {
    t.phase.Returned? ==>
      match t.call
      case ReserveBytes(requested) => t.phase.granted <= requested
      case ReserveDatagram(len) => t.phase.granted == if t.phase.accepted then len else 0
  }

  lemma GrantedUpdate(tasks: seq<Task>, i: nat, t: Task)
    requires i < |tasks| && GrantedBy(tasks[i]) == 0
    ensures Granted(tasks[i := t]) == Granted(tasks) + GrantedBy(t)
  {
    var n := |tasks| - 1;
    if i < n {
      assert tasks[i := t][..n] == tasks[..n][i := t];
      GrantedUpdate(tasks[..n], i, t);
    } else {
      assert tasks[i := t][..n] == tasks[..n];
    }
  }

  ghost predicate Conserved(start: int, s: State) {
    && 0 <= s.budget <= start && s.budget + Granted(s.tasks) == start
    && forall t :: t in s.tasks ==> FairTask(t) && (t.phase.Loaded? ==> 0 <= t.phase.current)
  }

  lemma StepConserves(start: int, s: State, e: Event)
    requires Conserved(start, s)
    ensures Conserved(start, Step(s, e))
  {
    hide Granted;
    match e {
      case Arrive(call) =>
        var t := Task(call, Begun);
        assert (s.tasks + [t])[..|s.tasks|] == s.tasks;
        GrantedAppend(s.tasks, t);
      case Load(i) =>
        if i < |s.tasks| && s.tasks[i].phase.Begun? {
          GrantedUpdate(s.tasks, i, s.tasks[i].(phase := Loaded(s.budget)));
        }
      case Attempt(i, spurious) =>
        if i < |s.tasks| && s.tasks[i].phase.Loaded? {
          var (budget, phase) := AttemptResult(s, s.tasks[i], spurious);
          assert s.tasks[i] in s.tasks;
          GrantedUpdate(s.tasks, i, s.tasks[i].(phase := phase));
        }
    }
  }

  lemma GrantedAppend(tasks: seq<Task>, t: Task)
    ensures Granted(tasks + [t]) == Granted(tasks) + GrantedBy(t)
  {
    assert (tasks + [t])[..|tasks|] == tasks;
  }

  /**
   * Over every interleaving of any number of calls, spurious failures included: a budget that starts at
   * zero or more never goes below zero, so never turns into the unlimited mark, and what it lost is
   * exactly what the calls were granted, none more than it asked for and datagrams whole or not at all.
   */
  lemma {:induction false} BudgetIsConserved(start: int, events: seq<Event>)
    requires 0 <= start
    ensures Conserved(start, Run(start, events))
  {
    hide Step, Conserved;
    if events == [] {
      NothingGranted(start);
    } else {
      BudgetIsConserved(start, events[..|events| - 1]);
      StepConserves(start, Run(start, events[..|events| - 1]), events[|events| - 1]);
    }
  }

  lemma NothingGranted(start: int)
    ensures 0 <= start ==> Conserved(start, State(start, []))
  {
  }

  /** An unlimited budget stays unlimited and grants everything; one below it stays and grants nothing. */
  lemma {:induction false} NegativeBudgetsStay(start: int, events: seq<Event>)
    requires start < 0
    ensures var s := Run(start, events);
            && s.budget == start
            && forall t :: t in s.tasks ==>
                 && (t.phase.Loaded? ==> t.phase.current == start)
                 && (t.phase.Returned? ==>
                       if start == UNLIMITED
                       then t.phase == Returned(Asked(t.call), true)
                       else t.phase.granted == 0)
  {
    if events != [] {
      NegativeBudgetsStay(start, events[..|events| - 1]);
    }
  }

  /** A byte reservation falls short only when it takes the last byte, or finds none. */
  lemma ShortGrantEmptiesTheBudget(start: int, events: seq<Event>, i: nat, spurious: bool)
    requires 0 <= start
    requires var s := Run(start, events); i < |s.tasks| && s.tasks[i].phase.Loaded? && s.tasks[i].call.ReserveBytes?
    ensures var s, t := Run(start, events), Step(Run(start, events), Attempt(i, spurious));
            t.tasks[i].phase.Returned? && t.tasks[i].phase.granted < s.tasks[i].call.requested ==>
              t.budget == 0 || s.tasks[i].phase.current == 0
  {
    hide Run;
    BudgetIsConserved(start, events);
    assert Run(start, events).tasks[i] in Run(start, events).tasks;
  }

  /**
   * An attempt, step by step: a call that holds the unlimited mark gets all it asked for, without touching the
   * budget; one that holds too little ends, a byte reservation with nothing and a datagram refused; and any
   * other ends exactly if the budget still is what it holds and the exchange does not fail by itself, with
   * the budget lowered by what it gets. If the exchange fails, it holds the present budget and tries again.
   */
  lemma AttemptDecides(s: State, i: nat, spurious: bool)
    requires i < |s.tasks| && s.tasks[i].phase.Loaded?
    ensures var call, current := s.tasks[i].call, s.tasks[i].phase.current;
            var t := Step(s, Attempt(i, spurious));
            var phase := t.tasks[i].phase;
            if current == -1 then
              t.budget == s.budget && phase == Returned(if call.ReserveBytes? then call.requested else call.len, true)
            else if call.ReserveBytes? && current <= 0 then t.budget == s.budget && phase == Returned(0, true)
            else if call.ReserveDatagram? && current < call.len then t.budget == s.budget && phase == Returned(0, false)
            else if s.budget != current || spurious then t.budget == s.budget && phase == Loaded(s.budget)
            else
              && phase.Returned? && phase.accepted && t.budget == s.budget - phase.granted
              && (call.ReserveDatagram? ==> phase.granted == call.len)
              && (call.ReserveBytes? ==>
                    && phase.granted <= call.requested && phase.granted <= current
                    && (phase.granted == call.requested || phase.granted == current))
  {
  }

  /** However often it lost before, a call that is not disturbed ends with its second attempt. */
  lemma TwoAttemptsEnd(s: State, i: nat)
    requires i < |s.tasks| && s.tasks[i].phase.Loaded?
    ensures var t := Step(s, Attempt(i, false));
            t.tasks[i].phase.Returned? || Step(t, Attempt(i, false)).tasks[i].phase.Returned?
  {
  }

  /** What a call may hold, and why it may have got less than it asked for. */
  predicate Justified(budget: int, t: Task) {
    match t.phase
    case Begun => true
    case Loaded(current) => budget <= current
    case Returned(granted, accepted) =>
      if t.call.ReserveBytes? then granted == t.call.requested || budget == 0
      else if accepted then granted == t.call.len else granted == 0 && budget < t.call.len
  }

  lemma JustifiedOfLess(budget: int, less: int, t: Task)
    requires Justified(budget, t) && 0 <= less <= budget
    ensures Justified(less, t)
  {
  }

  lemma StepJustifies(start: int, s: State, e: Event)
    requires Conserved(start, s) && forall t :: t in s.tasks ==> Justified(s.budget, t)
    ensures forall t :: t in Step(s, e).tasks ==> Justified(Step(s, e).budget, t)
  {
    hide Granted, Justified, Step;
    StepConserves(start, s, e);
    var u := Step(s, e);
    forall k | 0 <= k < |u.tasks| ensures Justified(u.budget, u.tasks[k]) {
      StepAt(s, e, k);
      if k < |s.tasks| {
        assert s.tasks[k] in s.tasks;
        JustifiedOfLess(s.budget, u.budget, s.tasks[k]);
      }
    }
  }

  /** One task in a step: it is as it was, has just begun, or has been justified by the step. */
  lemma StepAt(s: State, e: Event, k: nat)
    requires k < |Step(s, e).tasks| && 0 <= s.budget
    requires forall t :: t in s.tasks ==> Justified(s.budget, t) && (t.phase.Loaded? ==> 0 <= t.phase.current)
    ensures Step(s, e).budget <= s.budget
    ensures (k < |s.tasks| && Step(s, e).tasks[k] == s.tasks[k]) || Justified(Step(s, e).budget, Step(s, e).tasks[k])
  {
    if e.Attempt? && e.task < |s.tasks| && s.tasks[e.task].phase.Loaded? {
      assert s.tasks[e.task] in s.tasks;
    }
  }

  /**
   * Over every interleaving: a datagram is refused only if it does not fit what is left, and a byte
   * reservation falls short only if nothing is left, at the end of the run too. Losing a race never costs a
   * call anything that is still there.
   */
  lemma {:induction false} RefusalsAreJustified(start: int, events: seq<Event>)
    requires 0 <= start
    ensures var s := Run(start, events); forall t :: t in s.tasks ==> Justified(s.budget, t)
  {
    hide Step, Conserved, Justified;
    if events != [] {
      var before := Run(start, events[..|events| - 1]);
      RefusalsAreJustified(start, events[..|events| - 1]);
      BudgetIsConserved(start, events[..|events| - 1]);
      StepJustifies(start, before, events[|events| - 1]);
    }
  }

  /** A call that runs alone ends as the sequential methods say. */
  lemma SoloCallMatchesTheMethods(budget: int, call: Call)
    ensures var s := Run(budget, [Arrive(call), Load(0), Attempt(0, false)]);
            && |s.tasks| == 1 && s.tasks[0].phase.Returned?
            && s.budget == Spend(budget, if budget == UNLIMITED then 0 else s.tasks[0].phase.granted)
            && (call.ReserveBytes? ==> s.tasks[0].phase.granted == Grant(budget, Asked(call)))
            && (call.ReserveDatagram? ==> s.tasks[0].phase.accepted == Admits(budget, Asked(call)))
  {
    var arrived := Run(budget, [Arrive(call)]);
    var loaded := Run(budget, [Arrive(call), Load(0)]);
    assert [Arrive(call)][..0] == [] && Run(budget, []) == State(budget, []);
    assert [] + [Task(call, Begun)] == [Task(call, Begun)];
    assert arrived == State(budget, [Task(call, Begun)]);
    assert [Arrive(call), Load(0)][..1] == [Arrive(call)];
    assert loaded == State(budget, [Task(call, Loaded(budget))]);
    assert [Arrive(call), Load(0), Attempt(0, false)][..2] == [Arrive(call), Load(0)];
  }
}
