/**
 The lifetime protocol between an awaiter and the task that watches its deadline. The awaiter's constructor makes
 the task and posts it; the awaiter's destructor clears the task's reference count; the task's callback, run from
 the task queue, frees the task, wakes the awaiter, or posts the task again.
 */
module TaskLifetime {

  type Id = nat

  /** A `PostTask`; `expired` records that its callback found the deadline passed and woke the awaiter. */
  datatype Task = Task(refCount: int, awaiter: Id, freed: bool, expired: bool)

  /** An `AsyncIoWaiterBases`. */
  datatype Awaiter = Awaiter(task: Id, alive: bool)

  /** `fault` is set by a step that touches a freed task or a destroyed awaiter. */
  datatype State = State(tasks: map<Id, Task>, awaiters: map<Id, Awaiter>, queue: seq<Id>, fault: bool)

  datatype Action =
    | Create(awaiter: Id, task: Id)   // the constructor; both are new objects
    | Destroy(awaiter: Id)            // the destructor of a living awaiter
    | Check(late: bool)               // the oldest queued task is popped and called; `late`: its deadline has passed

  function Initial(): (s: State) { State(map[], map[], [], false) }

  function Touch(s: State, ok: bool): (s': State) { s.(fault := s.fault || !ok) }

  function CreateStep(s: State, a: Id, t: Id): (s': State) {
    if a in s.awaiters || t in s.tasks then s
    else
      State(s.tasks[t := Task(1, a, false, false)], s.awaiters[a := Awaiter(t, true)], s.queue + [t], s.fault)
  }

  /** `~AsyncIoWaiterBases` writes into the task. */
  function DestroyStep(s: State, a: Id): (s': State) {
    if a !in s.awaiters || !s.awaiters[a].alive then s
    else
      var t := s.awaiters[a].task;
      var s1 := s.(awaiters := s.awaiters[a := Awaiter(t, false)]);
      if t !in s.tasks then Touch(s1, false)
      else Touch(s1.(tasks := s.tasks[t := s.tasks[t].(refCount := 0)]), !s.tasks[t].freed)
  }

  /** `check_deley` on the popped task. */
  function CheckStep(s: State, late: bool): (s': State) {
    if s.queue == [] then s
    else
      var t := s.queue[0];
      var s1 := s.(queue := s.queue[1..]);
      if t !in s.tasks then Touch(s1, false)
      else
        var task := s.tasks[t];
        if task.refCount <= 0 then
          Touch(s1.(tasks := s.tasks[t := task.(freed := true)]), !task.freed)
        else
          var ok := !task.freed && task.awaiter in s.awaiters && s.awaiters[task.awaiter].alive;
          if late then Touch(s1.(tasks := s.tasks[t := task.(expired := true)]), ok)
          else Touch(s1.(queue := s1.queue + [t]), ok)
  }

  function Step(s: State, a: Action): (s': State) {
    match a
    case Create(aw, t) => CreateStep(s, aw, t)
    case Destroy(aw) => DestroyStep(s, aw)
    case Check(late) => CheckStep(s, late)
  }

  function Run(s: State, actions: seq<Action>): (s': State)
    decreases |actions|
  {
    if actions == [] then s else Step(Run(s, actions[..|actions| - 1]), actions[|actions| - 1])
  }

  // ----- The invariant -----

  ghost predicate Distinct(q: seq<Id>) {
    forall j, k :: 0 <= j < k < |q| ==> q[j] != q[k]
  }

  ghost predicate AwaiterAlive(s: State, a: Id) { a in s.awaiters && s.awaiters[a].alive }

  /** A task's count says whether its awaiter lives, and the two know each other. */
  ghost predicate TaskOk(s: State, t: Id)
    requires t in s.tasks
  {
    var task := s.tasks[t];
    && task.awaiter in s.awaiters && s.awaiters[task.awaiter].task == t
    && task.refCount == (if s.awaiters[task.awaiter].alive then 1 else 0)
    && (task.freed ==> !s.awaiters[task.awaiter].alive && t !in s.queue)
    && (task.expired ==> t !in s.queue && !task.freed)
    && (t !in s.queue ==> task.freed || task.expired)
  }

  ghost predicate Invariant(s: State) {
    && !s.fault
    && Distinct(s.queue)
    && (forall t :: t in s.queue ==> t in s.tasks)
    && (forall t :: t in s.tasks ==> TaskOk(s, t))
    && (forall a :: a in s.awaiters ==> s.awaiters[a].task in s.tasks && s.tasks[s.awaiters[a].task].awaiter == a)
  }

  lemma CreateKeeps(s: State, a: Id, t: Id)
    requires Invariant(s)
    ensures Invariant(CreateStep(s, a, t))
  {
    var s' := CreateStep(s, a, t);
    forall u | u in s'.tasks ensures TaskOk(s', u) {
      if u in s.tasks { assert TaskOk(s, u); }
    }
  }

  lemma DestroyKeeps(s: State, a: Id)
    requires Invariant(s)
    ensures Invariant(DestroyStep(s, a))
  {
    var s' := DestroyStep(s, a);
    if AwaiterAlive(s, a) {
      assert TaskOk(s, s.awaiters[a].task);
    }
    forall u | u in s'.tasks ensures TaskOk(s', u) {
      assert TaskOk(s, u);
    }
  }

  lemma CheckKeeps(s: State, late: bool)
    requires Invariant(s)
    ensures Invariant(CheckStep(s, late))
  {
    var s' := CheckStep(s, late);
    if s.queue != [] {
      var t := s.queue[0];
      assert t in s.queue && TaskOk(s, t);
      assert t !in s.queue[1..];
      assert forall u :: u in s.queue <==> u == t || u in s.queue[1..];
      forall u | u in s'.tasks ensures TaskOk(s', u) {
        assert TaskOk(s, u);
      }
    }
  }

  lemma {:induction false} RunKeeps(actions: seq<Action>)
    ensures Invariant(Run(Initial(), actions))
    decreases |actions|
  {
    if actions != [] {
      RunKeeps(actions[..|actions| - 1]);
      var s := Run(Initial(), actions[..|actions| - 1]);
      match actions[|actions| - 1]
      case Create(a, t) => CreateKeeps(s, a, t);
      case Destroy(a) => DestroyKeeps(s, a);
      case Check(late) => CheckKeeps(s, late);
    }
  }

  // ----- What every run keeps -----

  /** No step ever touches a freed task or a destroyed awaiter. */
  lemma NoUseAfterFree(actions: seq<Action>)
    ensures !Run(Initial(), actions).fault
  {
    RunKeeps(actions);
  }

  /** A task is queued at most once, and is freed only after its awaiter is gone. */
  lemma QueuedOnceFreedLate(actions: seq<Action>, t: Id)
    requires t in Run(Initial(), actions).tasks
    ensures var s := Run(Initial(), actions);
            && (forall j, k :: 0 <= j < |s.queue| && 0 <= k < |s.queue| && s.queue[j] == t == s.queue[k] ==> j == k)
            && (s.tasks[t].freed ==> !AwaiterAlive(s, s.tasks[t].awaiter) && t !in s.queue)
  {
    RunKeeps(actions);
    assert TaskOk(Run(Initial(), actions), t);
  }

  /** A task that has left the queue was freed or had woken its awaiter, never both. */
  lemma LeavesTheQueueOnce(actions: seq<Action>, t: Id)
    requires t in Run(Initial(), actions).tasks && t !in Run(Initial(), actions).queue
    ensures var task := Run(Initial(), actions).tasks[t]; task.freed != task.expired
  {
    RunKeeps(actions);
    assert TaskOk(Run(Initial(), actions), t);
  }

  lemma ExpiredStep(s: State, a: Action, t: Id)
    requires Invariant(s) && t in s.tasks && s.tasks[t].expired
    ensures var s' := Step(s, a); t in s'.tasks && s'.tasks[t].expired && !s'.tasks[t].freed && t !in s'.queue
  {
    assert TaskOk(s, t);
    assert s.queue != [] ==> forall u :: u in s.queue[1..] ==> u in s.queue;
  }

  /**
   A task whose deadline passed is not posted again, so no continuation of the run ever frees it, whatever becomes
   of its awaiter: it is leaked.
   */
  lemma {:induction false} ExpiredTaskIsNeverFreed(before: seq<Action>, after: seq<Action>, t: Id)
    requires t in Run(Initial(), before).tasks && Run(Initial(), before).tasks[t].expired
    ensures var s := Run(Initial(), before + after); t in s.tasks && s.tasks[t].expired && !s.tasks[t].freed && t !in s.queue
    decreases |after|
  {
    if after == [] {
      assert before + after == before;
      RunKeeps(before);
      assert TaskOk(Run(Initial(), before), t);
    } else {
      var more := after[..|after| - 1];
      ExpiredTaskIsNeverFreed(before, more, t);
      RunKeeps(before + more);
      assert (before + after)[..|before + after| - 1] == before + more;
      ExpiredStep(Run(Initial(), before + more), after[|after| - 1], t);
    }
  }

  /** Once its awaiter is gone, the next call of a queued task frees it. */
  lemma OrphanIsFreed(actions: seq<Action>, late: bool)
    requires var s := Run(Initial(), actions); s.queue != [] && s.queue[0] in s.tasks && !AwaiterAlive(s, s.tasks[s.queue[0]].awaiter)
    ensures var s := Run(Initial(), actions); var s' := Step(s, Check(late)); s.queue[0] in s'.tasks && s'.tasks[s.queue[0]].freed
  {
    RunKeeps(actions);
    var s := Run(Initial(), actions);
    assert TaskOk(s, s.queue[0]);
  }

  // ----- Which tasks are leaked -----

  /** A task does expire: its deadline has passed when it is first called. */
  lemma ExpiredIsReachable()
    ensures var s := Run(Initial(), [Create(0, 0), Check(true)]); 0 in s.tasks && s.tasks[0].expired && s.queue == []
  {
    RunSnoc([], Create(0, 0));
    RunSnoc([Create(0, 0)], Check(true));
    assert [] + [Create(0, 0)] == [Create(0, 0)];
    assert [Create(0, 0)] + [Check(true)] == [Create(0, 0), Check(true)];
  }

  lemma RunSnoc(actions: seq<Action>, a: Action)
    ensures Run(Initial(), actions + [a]) == Step(Run(Initial(), actions), a)
  {
    assert (actions + [a])[..|actions|] == actions;
  }

  ghost predicate FreedAfter(before: seq<Action>, after: seq<Action>, t: Id) {
    var s := Run(Initial(), before + after);
    t in s.tasks && s.tasks[t].freed
  }

  /** A queued task whose awaiter is gone comes to the front of the queue and is freed there. */
  lemma {:induction false} OrphanReachesFront(before: seq<Action>, t: Id, j: nat) returns (after: seq<Action>)
    requires var s := Run(Initial(), before); j < |s.queue| && s.queue[j] == t && t in s.tasks && s.tasks[t].refCount <= 0
    ensures FreedAfter(before, after, t)
    decreases j
  {
    hide Run;
    RunKeeps(before);
    var s := Run(Initial(), before);
    RunSnoc(before, Check(false));
    if j == 0 {
      after := [Check(false)];
    } else {
      assert s.queue[0] in s.queue && s.queue[0] != t;
      assert Step(s, Check(false)).queue[j - 1] == t;
      var more := OrphanReachesFront(before + [Check(false)], t, j - 1);
      after := [Check(false)] + more;
      assert before + after == before + [Check(false)] + more;
    }
  }

  /** Exactly the tasks that have expired are leaked: for every other one some continuation of the run frees it. */
  lemma FreeableIffNotExpired(before: seq<Action>, t: Id)
    requires t in Run(Initial(), before).tasks
    ensures (exists after: seq<Action> :: FreedAfter(before, after, t)) <==> !Run(Initial(), before).tasks[t].expired
  {
    hide Run;
    RunKeeps(before);
    var s := Run(Initial(), before);
    assert TaskOk(s, t);
    if s.tasks[t].expired {
      forall after: seq<Action> ensures !FreedAfter(before, after, t) {
        ExpiredTaskIsNeverFreed(before, after, t);
      }
    } else if s.tasks[t].freed {
      assert before + [] == before;
      assert FreedAfter(before, [], t);
    } else {
      var a := Destroy(s.tasks[t].awaiter);
      RunSnoc(before, a);
      var j :| 0 <= j < |s.queue| && s.queue[j] == t;
      var more := OrphanReachesFront(before + [a], t, j);
      assert before + ([a] + more) == before + [a] + more;
      assert FreedAfter(before, [a] + more, t);
    }
  }

  /** How many tasks are called. */
  function Checks(actions: seq<Action>): (n: nat) {
    if actions == [] then 0 else (if actions[0].Check? then 1 else 0) + Checks(actions[1..])
  }

  lemma FreedStep(s: State, a: Action, t: Id)
    requires Invariant(s) && t in s.tasks && s.tasks[t].freed
    ensures var s' := Step(s, a); t in s'.tasks && s'.tasks[t].freed
  {
    assert TaskOk(s, t);
  }

  lemma {:induction false} FreedStays(before: seq<Action>, after: seq<Action>, t: Id)
    requires t in Run(Initial(), before).tasks && Run(Initial(), before).tasks[t].freed
    ensures FreedAfter(before, after, t)
    decreases |after|
  {
    hide Run;
    if after == [] {
      assert before + after == before;
    } else {
      RunKeeps(before);
      RunSnoc(before, after[0]);
      FreedStep(Run(Initial(), before), after[0], t);
      FreedStays(before + [after[0]], after[1..], t);
      assert before + after == before + [after[0]] + after[1..];
    }
  }

  /** A step moves a queued orphan up by one when a task is called, and otherwise leaves it where it is. */
  lemma OrphanStep(s: State, a: Action, t: Id, j: nat)
    requires Invariant(s) && j < |s.queue| && s.queue[j] == t && t in s.tasks && s.tasks[t].refCount <= 0
    ensures var s' := Step(s, a);
            && t in s'.tasks && s'.tasks[t].refCount <= 0
            && if a.Check? && j == 0 then s'.tasks[t].freed
               else var k := if a.Check? then j - 1 else j; k < |s'.queue| && s'.queue[k] == t
  {
    assert TaskOk(s, t);
    assert s.queue[0] in s.queue;
    assert j > 0 ==> s.queue[0] != t;
  }

  /** Once its awaiter is gone, a queued task is freed by every continuation that calls more tasks than are before it. */
  lemma {:induction false} OrphanIsFreedInTime(before: seq<Action>, after: seq<Action>, t: Id, j: nat)
    requires var s := Run(Initial(), before);
             j < |s.queue| && s.queue[j] == t && t in s.tasks && !AwaiterAlive(s, s.tasks[t].awaiter)
    requires Checks(after) > j
    ensures FreedAfter(before, after, t)
    decreases |after|
  {
    hide Run;
    var s, a := Run(Initial(), before), after[0];
    RunKeeps(before);
    assert TaskOk(s, t);
    OrphanStep(s, a, t, j);
    RunSnoc(before, a);
    assert before + after == before + [a] + after[1..];
    if a.Check? && j == 0 {
      FreedStays(before + [a], after[1..], t);
    } else {
      RunKeeps(before + [a]);
      assert TaskOk(Step(s, a), t);
      OrphanIsFreedInTime(before + [a], after[1..], t, if a.Check? then j - 1 else j);
    }
  }
}
