/** The cooperative executor: one queue, first in first out, polled round-robin. */
module Executor {
  import opened Prelude

  /** A task is known by the order in which it was spawned. */
  type TaskId = nat

  /** What one `poll` of a task does, as far as the executor can see: whether the task is finished, and how many
      tasks it spawned meanwhile. The tasks themselves are outside the executor. */
  datatype Outcome = Outcome(ready: bool, spawns: nat)

  /** The queue, the number of tasks spawned so far, the finished tasks and the tasks polled, both in order. */
  datatype State = State(queue: seq<TaskId>, spawned: nat, finished: seq<TaskId>, polls: seq<TaskId>)

  /** The task numbers `lo .. hi`. */
  function Fresh(lo: nat, hi: nat): (ids: seq<TaskId>)
    requires lo <= hi
    ensures |ids| == hi - lo && (forall i | 0 <= i < |ids| :: ids[i] == lo + i)
    decreases hi - lo
  {
    if lo == hi then [] else [lo] + Fresh(lo + 1, hi)
  }

  /** `spawn_global`, `n` times. */
  function Spawn(s: State, n: nat): State
  {
    s.(queue := s.queue + Fresh(s.spawned, s.spawned + n), spawned := s.spawned + n)
  }

  /** One turn of the loop in `run`: the front task is polled, what it spawns goes behind the queue, and the task itself
      behind that unless it is finished. With an empty queue nothing happens. */
  function Turn(s: State, o: Outcome): State
  {
    if s.queue == [] then s
    else
      var task := s.queue[0];
      var t := Spawn(s.(queue := s.queue[1..], polls := s.polls + [task]), o.spawns);
      if o.ready then t.(finished := t.finished + [task]) else t.(queue := t.queue + [task])
  }

  function Turns(s: State, os: seq<Outcome>): State
  {
    if os == [] then s else Turn(Turns(s, os[..|os| - 1]), os[|os| - 1])
  }

  /* Conservation. */

  function Count(tasks: seq<TaskId>, task: TaskId): nat
  {
    if tasks == [] then 0 else (if tasks[0] == task then 1 else 0) + Count(tasks[1..], task)
  }

  /** How often a task is queued or finished. */
  function Places(s: State, task: TaskId): nat { Count(s.queue, task) + Count(s.finished, task) }

  /** Every spawned task is in exactly one place, once: queued or finished; no other task is anywhere. */
  ghost predicate Conserved(s: State)
  {
    forall task: TaskId :: Places(s, task) == if task < s.spawned then 1 else 0
  }

  lemma {:induction false} FreshSplit(lo: nat, mid: nat, hi: nat)
    requires lo <= mid <= hi
    ensures Fresh(lo, hi) == Fresh(lo, mid) + Fresh(mid, hi)
  {
  }

  lemma {:induction false} SpawnNext(s: State, n: nat)
    ensures Spawn(Spawn(s, n), 1) == Spawn(s, n + 1)
  {
    FreshSplit(s.spawned, s.spawned + n, s.spawned + n + 1);
  }

  lemma {:induction false} CountFresh(lo: nat, hi: nat, task: TaskId)
    requires lo <= hi
    ensures Count(Fresh(lo, hi), task) == (if lo <= task < hi then 1 else 0)
    decreases hi - lo
  {
    if lo < hi {
      CountFresh(lo + 1, hi, task);
      assert Fresh(lo, hi)[1..] == Fresh(lo + 1, hi);
    }
  }

  lemma {:induction false} CountConcat(a: seq<TaskId>, b: seq<TaskId>, task: TaskId)
    ensures Count(a + b, task) == Count(a, task) + Count(b, task)
  {
    if a == [] {
      assert a + b == b;
    } else {
      assert (a + b)[1..] == a[1..] + b;
      CountConcat(a[1..], b, task);
    }
  }

  lemma {:induction false} CountIn(tasks: seq<TaskId>, task: TaskId)
    ensures task in tasks <==> Count(tasks, task) > 0
  {
    if tasks != [] {
      CountIn(tasks[1..], task);
      assert tasks == [tasks[0]] + tasks[1..];
    }
  }

  lemma {:induction false} CountOne(tasks: seq<TaskId>, last: TaskId, task: TaskId)
    ensures Count(tasks + [last], task) == Count(tasks, task) + if last == task then 1 else 0
  {
    CountConcat(tasks, [last], task);
  }

  /** Spawning adds the new tasks' places and no others. */
  lemma {:induction false} SpawnPlaces(s: State, n: nat, task: TaskId)
    ensures Places(Spawn(s, n), task) == Places(s, task) + if s.spawned <= task < s.spawned + n then 1 else 0
  {
    CountConcat(s.queue, Fresh(s.spawned, s.spawned + n), task);
    CountFresh(s.spawned, s.spawned + n, task);
  }

  lemma {:induction false} SpawnConserves(s: State, n: nat)
    requires Conserved(s)
    ensures Conserved(Spawn(s, n))
  {
    forall task: TaskId ensures Places(Spawn(s, n), task) == if task < s.spawned + n then 1 else 0 {
      SpawnPlaces(s, n, task);
    }
  }

  /** While a task is being polled it is in neither place: after `k` of its spawns every spawned task is queued,
      finished or the one in flight. */
  lemma {:induction false} InFlight(s: State, k: nat, task: TaskId)
    requires Conserved(s) && s.queue != []
    ensures var t := Spawn(s.(queue := s.queue[1..]), k);
            Places(t, task) + (if task == s.queue[0] then 1 else 0) == if task < t.spawned then 1 else 0
  {
    assert Places(s, task) == if task < s.spawned then 1 else 0;
    SpawnPlaces(s.(queue := s.queue[1..]), k, task);
  }

  lemma {:induction false} TurnConserves(s: State, o: Outcome)
    requires Conserved(s)
    ensures Conserved(Turn(s, o))
  {
    var t := Turn(s, o);
    if s.queue != [] {
      forall task: TaskId ensures Places(t, task) == if task < t.spawned then 1 else 0 {
        InFlight(s, o.spawns, task);
        CountOne(s.finished, s.queue[0], task);
        CountOne(s.queue[1..] + Fresh(s.spawned, s.spawned + o.spawns), s.queue[0], task);
      }
    }
  }

  /** In every run the spawned tasks are the finished ones and the queued ones. */
  lemma {:induction false} TurnsConserve(s: State, os: seq<Outcome>)
    requires Conserved(s)
    ensures Conserved(Turns(s, os))
  {
    if os != [] {
      TurnsConserve(s, os[..|os| - 1]);
      TurnConserves(Turns(s, os[..|os| - 1]), os[|os| - 1]);
    }
  }

  /* Fairness. */

  /** After `j` turns a task that was at position `k >= j` is at position `k - j`, whatever was spawned or finished. */
  lemma {:induction false} MovesUp(s: State, os: seq<Outcome>, k: nat)
    requires k < |s.queue| && |os| <= k
    ensures |Turns(s, os).queue| > k - |os| && Turns(s, os).queue[k - |os|] == s.queue[k]
    ensures |Turns(s, os).polls| == |s.polls| + |os|
  {
    if os != [] {
      MovesUp(s, os[..|os| - 1], k);
    }
  }

  /** A task at position `k` is polled at the `k + 1`-th poll from now, exactly. */
  lemma {:induction false} PolledInTurn(s: State, os: seq<Outcome>, k: nat)
    requires k < |s.queue| && |os| == k + 1
    ensures |Turns(s, os).polls| == |s.polls| + k + 1 && Turns(s, os).polls[|s.polls| + k] == s.queue[k]
  {
    MovesUp(s, os[..k], k);
  }

  /** The next `|os|` polls go down the queue as it stands now. */
  lemma {:induction false} PolledInOrder(s: State, os: seq<Outcome>, i: nat)
    requires i < |os| <= |s.queue|
    ensures |s.polls| + i < |Turns(s, os).polls| && Turns(s, os).polls[|s.polls| + i] == s.queue[i]
  {
    PolledInTurn(s, os[..i + 1], i);
    PollsGrow(s, os, i + 1);
  }

  /** A task that stays pending is polled again after every task then in the queue, those it spawned included, has been
      polled once, and not before. */
  lemma {:induction false} PolledAgain(s: State, o: Outcome, os: seq<Outcome>)
    requires s.queue != [] && !o.ready && |os| == |s.queue| + o.spawns
    ensures var t := Turn(s, o);
            && t.polls == s.polls + [s.queue[0]] && |t.queue| == |os| && t.queue[|os| - 1] == s.queue[0]
            && |Turns(t, os).polls| == |t.polls| + |os|
            && forall i | 0 <= i < |os| :: Turns(t, os).polls[|t.polls| + i] == t.queue[i]
  {
    var t := Turn(s, o);
    PolledInTurn(t, os, |os| - 1);
    forall i | 0 <= i < |os| ensures Turns(t, os).polls[|t.polls| + i] == t.queue[i] {
      PolledInOrder(t, os, i);
    }
  }

  lemma {:induction false} PollsGrow(s: State, os: seq<Outcome>, k: nat)
    requires k <= |os|
    ensures Turns(s, os[..k]).polls <= Turns(s, os).polls
  {
    if k == |os| {
      assert os[..k] == os;
    } else {
      PollsGrow(s, os[..|os| - 1], k);
      assert os[..|os| - 1][..k] == os[..k];
    }
  }

  /** A finished task is not in the queue, so a turn polls another one. */
  lemma {:induction false} FinishedNotQueued(s: State, task: TaskId)
    requires Conserved(s) && task in s.finished
    ensures task !in s.queue
  {
    assert Places(s, task) <= 1;
    CountIn(s.finished, task);
    CountIn(s.queue, task);
  }

  /** No finished task is polled again. */
  lemma {:induction false} FinishedStays(s: State, os: seq<Outcome>, task: TaskId)
    requires Conserved(s) && task in s.finished
    ensures task in Turns(s, os).finished && |s.polls| <= |Turns(s, os).polls|
    ensures task !in Turns(s, os).polls[|s.polls|..]
  {
    if os != [] {
      var t := Turns(s, os[..|os| - 1]);
      FinishedStays(s, os[..|os| - 1], task);
      TurnsConserve(s, os[..|os| - 1]);
      FinishedNotQueued(t, task);
      assert t.queue != [] ==> t.queue[0] in t.queue;
    }
  }

  /** What a turn leaves: a ready task goes to the finished ones, a pending one behind what it spawned; an empty queue
      stays as it is. */
  ghost predicate Turned(s: State, o: Outcome, t: State)
  {
    forall key {:trigger Opened(key)} | Opened(key) ::
      if s.queue == [] then t == s
      else
        && t.spawned == s.spawned + o.spawns && t.polls == s.polls + [s.queue[0]]
        && t.finished == s.finished + (if o.ready then [s.queue[0]] else [])
        && t.queue == s.queue[1..] + Fresh(s.spawned, s.spawned + o.spawns) + if o.ready then [] else [s.queue[0]]
  }

  lemma {:induction false} TurnMeaning(s: State, o: Outcome)
    ensures Turned(s, o, Turn(s, o))
  {
    assert s.finished + [] == s.finished;
  }

  /** A task that is ready when polled leaves the queue for good: it is the last of the finished ones, no run queues or
      polls it again. */
  lemma {:induction false} ReadyFinishes(s: State, o: Outcome, os: seq<Outcome>)
    requires Conserved(s) && s.queue != [] && o.ready
    ensures var task, t := s.queue[0], Turn(s, o);
            && t.polls == s.polls + [task] && t.finished == s.finished + [task]
            && t.queue == s.queue[1..] + Fresh(s.spawned, s.spawned + o.spawns) && task !in t.queue
            && task !in Turns(t, os).queue && |t.polls| <= |Turns(t, os).polls|
            && task !in Turns(t, os).polls[|t.polls|..]
  {
    var task, t := s.queue[0], Turn(s, o);
    TurnConserves(s, o);
    FinishedNotQueued(t, task);
    FinishedStays(t, os, task);
    TurnsConserve(t, os);
    FinishedNotQueued(Turns(t, os), task);
  }

  predicate ReadyNow(s: State, o: Outcome, task: TaskId) { o.ready && s.queue != [] && s.queue[0] == task }

  /** In turn `j` of the run the task is polled and ready. */
  ghost predicate ReadyAt(s: State, os: seq<Outcome>, task: TaskId, j: nat)
  {
    j < |os| && ReadyNow(Turns(s, os[..j]), os[j], task)
  }

  /** A task is finished exactly if it was from the start or its own poll was ready in some turn of the run. */
  lemma {:induction false} FinishedIff(s: State, os: seq<Outcome>, task: TaskId)
    ensures task in Turns(s, os).finished <==> task in s.finished || exists j :: ReadyAt(s, os, task, j)
  {
    if os != [] {
      var n := |os| - 1;
      FinishedIff(s, os[..n], task);
      forall j: nat | j < n ensures ReadyAt(s, os, task, j) <==> ReadyAt(s, os[..n], task, j) {
        assert os[..n][..j] == os[..j];
      }
      FinishedNext(Turns(s, os[..n]), os[n], task);
      assert ReadyAt(s, os, task, n) <==> ReadyNow(Turns(s, os[..n]), os[n], task);
      if j: nat :| ReadyAt(s, os, task, j) {
        assert j < n ==> ReadyAt(s, os[..n], task, j);
      }
    }
  }

  lemma {:induction false} FinishedNext(s: State, o: Outcome, task: TaskId)
    ensures task in Turn(s, o).finished <==> task in s.finished || ReadyNow(s, o, task)
  {
  }

  /* The code. */

  /** `GLOBAL_EXECUTOR`: absent until the first spawn, and its queue absent until first used. */
  class GlobalExecutor {
    var executor: Option<Option<seq<TaskId>>>
    var spawned: nat
    ghost var finished: seq<TaskId>
    ghost var polls: seq<TaskId>

    ghost function View(): State
      reads this
    {
      State(if executor.Some? && executor.value.Some? then executor.value.value else [], spawned, finished, polls)
    }

    constructor ()
      ensures View() == State([], 0, [], [])
    {
      executor := None;
      spawned, finished, polls := 0, [], [];
    }

    /** `spawn_global`. */
    method SpawnGlobal()
      modifies this
      ensures View() == Spawn(old(View()), 1) && executor.Some?
    {
      if executor.None? {
        executor := Some(None);
      }
      var queue := if executor.value.None? then [] else executor.value.value;
      executor := Some(Some(queue + [spawned]));
      spawned := spawned + 1;
    }

    method SpawnMany(n: nat)
      modifies this
      ensures View() == Spawn(old(View()), n) && (old(executor).Some? ==> executor.Some?)
    {
      ghost var s := View();
      for i := 0 to n
        invariant View() == Spawn(s, i) && (old(executor).Some? ==> executor.Some?)
      {
        SpawnNext(s, i);
        SpawnGlobal();
      }
    }

    /** `task_queue().pop_front()` under the lock. */
    method PopFront() returns (task: Option<TaskId>)
      modifies this`executor
      ensures old(View()).queue == [] ==> task == None && View() == old(View())
      ensures task.Some? ==> executor.Some?
      ensures old(View()).queue != [] ==>
                task == Some(old(View()).queue[0]) && View() == old(View()).(queue := old(View()).queue[1..])
    {
      if executor.None? {
        return None;
      }
      var queue := if executor.value.None? then [] else executor.value.value;
      if queue == [] {
        executor := Some(Some([]));
        return None;
      }
      executor := Some(Some(queue[1..]));
      task := Some(queue[0]);
    }

    /** One turn of `run`, in which the task behaves as `o` says. */
    method RunTurn(o: Outcome)
      modifies this
      ensures View() == Turn(old(View()), o)
      ensures Turned(old(View()), o, View())
    {
      TurnMeaning(View(), o);
      var task := PopFront();
      if task.Some? {
        polls := polls + [task.value];
        SpawnMany(o.spawns);
        if o.ready {
          finished := finished + [task.value];
        } else if executor.Some? {
          var queue := if executor.value.None? then [] else executor.value.value;
          executor := Some(Some(queue + [task.value]));
        }
      }
    }

    /** `run` for as many turns as outcomes are given. */
    method Run(os: seq<Outcome>)
      modifies this
      ensures View() == Turns(old(View()), os)
    {
      assert os[..0] == [];
      for i := 0 to |os|
        invariant View() == Turns(old(View()), os[..i])
      {
        assert os[..i + 1][..i] == os[..i];
        RunTurn(os[i]);
      }
      assert os[..|os|] == os;
    }
  }

  /** `Yield`: pending at its first poll, ready from then on. */
  class Yield {
    var polled: bool

    constructor ()
      ensures !polled
    {
      polled := false;
    }

    method Poll() returns (ready: bool)
      modifies this
      ensures ready == old(polled) && polled
    {
      ready := polled;
      polled := true;
    }
  }
}
