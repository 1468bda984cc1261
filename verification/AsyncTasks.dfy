/**
 The task manager: tasks are added, also by running tasks, and drained until none is left. What happens while a drain waits is
 a schedule of events, so the guarantees hold for every interleaving.
 */
module AsyncTasks {
  import opened Wrappers

  type TaskId = nat

  datatype Outcome = Fulfilled(value: int) | Rejected(error: int)

  /** `Resume` is when a drain that waits may go on; it does once everything it waits for has settled. */
  datatype Event = Add(task: TaskId, cancellable: bool) | Settle(task: TaskId, outcome: Outcome) | Cancel | CancelToken | Resume

  /** What became of a drain: its values (null for a failed task), the errors it threw, or it is still waiting. */
  datatype Completion = Returned(values: seq<Option<int>>) | Threw(errors: seq<int>) | Waiting

  function ValueOf(outcome: Outcome): Option<int> {
    if outcome.Fulfilled? then Some(outcome.value) else None
  }

  predicate AllSettled(tasks: seq<TaskId>, outcomes: map<TaskId, Outcome>) {
    forall k :: 0 <= k < |tasks| ==> tasks[k] in outcomes
  }

  /** What Promise.all gives for settled tasks: one value per task, in their order. */
  function Values(tasks: seq<TaskId>, outcomes: map<TaskId, Outcome>): (values: seq<Option<int>>)
    requires AllSettled(tasks, outcomes)
    ensures |values| == |tasks|
  {
    seq(|tasks|, k requires 0 <= k < |tasks| && AllSettled(tasks, outcomes) => ValueOf(outcomes[tasks[k]]))
  }

  /** Outcomes are final. */
  ghost predicate Grows(before: map<TaskId, Outcome>, after: map<TaskId, Outcome>) {
    forall t :: t in before ==> t in after && after[t] == before[t]
  }

  /** The tasks that are not among `dropped`, in order. */
  ghost function Kept(tasks: seq<TaskId>, dropped: set<TaskId>): seq<TaskId> {
    if tasks == [] then []
    else
      var last := tasks[|tasks| - 1];
      Kept(tasks[..|tasks| - 1], dropped) + if last in dropped then [] else [last]
  }

  lemma KeptSnoc(tasks: seq<TaskId>, task: TaskId, dropped: set<TaskId>)
    ensures Kept(tasks + [task], dropped) == Kept(tasks, dropped) + if task in dropped then [] else [task]
  {
    assert (tasks + [task])[..|tasks|] == tasks;
  }

  lemma {:induction false} KeptMembers(tasks: seq<TaskId>, dropped: set<TaskId>, task: TaskId)
    ensures task in Kept(tasks, dropped) <==> task in tasks && task !in dropped
  {
    if tasks != [] {
      KeptMembers(tasks[..|tasks| - 1], dropped, task);
      assert tasks == tasks[..|tasks| - 1] + [tasks[|tasks| - 1]];
    }
  }

  /** Dropping in two steps is dropping all at once. */
  lemma {:induction false} KeptTwice(tasks: seq<TaskId>, dropped: set<TaskId>, more: set<TaskId>)
    ensures Kept(tasks, dropped + more) == Kept(Kept(tasks, dropped), more)
  {
    if tasks != [] {
      var rest, last := tasks[..|tasks| - 1], tasks[|tasks| - 1];
      KeptTwice(rest, dropped, more);
      KeptSnoc(Kept(rest, dropped), last, more);
      assert Kept(rest, dropped) + [] == Kept(rest, dropped);
    }
  }

  lemma {:induction false} KeptAll(tasks: seq<TaskId>, dropped: set<TaskId>)
    requires forall t :: t in tasks ==> t !in dropped
    ensures Kept(tasks, dropped) == tasks
  {
    if tasks != [] {
      KeptAll(tasks[..|tasks| - 1], dropped);
    }
  }

  /** Dropping everything at the end of a list of other tasks leaves those. */
  lemma {:induction false} KeptFront(front: seq<TaskId>, tasks: seq<TaskId>, dropped: set<TaskId>)
    requires forall t :: t in tasks ==> t in dropped
    requires forall t :: t in front ==> t !in dropped
    ensures Kept(front + tasks, dropped) == front
  {
    if tasks == [] {
      KeptAll(front, dropped);
      assert front + tasks == front;
    } else {
      var rest, last := tasks[..|tasks| - 1], tasks[|tasks| - 1];
      KeptFront(front, rest, dropped);
      KeptSnoc(front + rest, last, dropped);
      assert front + tasks == front + rest + [last];
      assert front + [] == front;
    }
  }

  /** Every task added was taken, waits, or was dropped; the first two in the order they were added. */
  ghost predicate Accounted(added: seq<TaskId>, dropped: set<TaskId>, taken: seq<TaskId>, tasks: seq<TaskId>) {
    && Kept(added, dropped) == taken + tasks
    && (forall t :: t in taken ==> t !in tasks)
    && forall t :: t in dropped ==> t in added
  }

  lemma AccountedAdd(added: seq<TaskId>, dropped: set<TaskId>, taken: seq<TaskId>, tasks: seq<TaskId>, task: TaskId)
    requires Accounted(added, dropped, taken, tasks) && task !in added
    ensures Accounted(added + [task], dropped, taken, tasks + [task])
  {
    hide Kept;
    KeptSnoc(added, task, dropped);
    KeptMembers(added, dropped, task);
    assert task in taken ==> task in taken + tasks;
    assert taken + tasks + [task] == taken + (tasks + [task]);
  }

  lemma AccountedDrop(added: seq<TaskId>, dropped: set<TaskId>, taken: seq<TaskId>, tasks: seq<TaskId>)
    requires Accounted(added, dropped, taken, tasks)
    ensures Accounted(added, dropped + (set t | t in tasks), taken, [])
  {
    hide Kept;
    var waiting := set t | t in tasks;
    KeptTwice(added, dropped, waiting);
    KeptFront(taken, tasks, waiting);
    assert taken + [] == taken;
    forall t | t in waiting ensures t in added {
      assert t in taken + tasks;
      KeptMembers(added, dropped, t);
    }
  }

  lemma AccountedTake(added: seq<TaskId>, dropped: set<TaskId>, taken: seq<TaskId>, tasks: seq<TaskId>)
    requires Accounted(added, dropped, taken, tasks)
    ensures Accounted(added, dropped, taken + tasks, [])
  {
    assert taken + tasks + [] == taken + tasks;
  }

  lemma AllTaken(added: seq<TaskId>, dropped: set<TaskId>, taken: seq<TaskId>)
    requires Accounted(added, dropped, taken, [])
    ensures taken == Kept(added, dropped)
  {
    assert taken + [] == taken;
  }

  lemma WaitingIsAdded(added: seq<TaskId>, dropped: set<TaskId>, taken: seq<TaskId>, tasks: seq<TaskId>)
    requires Accounted(added, dropped, taken, tasks)
    ensures forall t :: t in tasks ==> t in added
  {
    hide Kept;
    forall t | t in tasks ensures t in added {
      assert t in taken + tasks;
      KeptMembers(added, dropped, t);
    }
  }

  /** Task t has settled before event k. */
  ghost predicate SettlesBy(t: TaskId, before: map<TaskId, Outcome>, schedule: seq<Event>, k: nat) {
    t in before || exists j :: 0 <= j < k && j < |schedule| && schedule[j].Settle? && schedule[j].task == t
  }

  /** Event k resumes the drain, and all of `list` has settled by then. */
  ghost predicate Resumes(list: seq<TaskId>, before: map<TaskId, Outcome>, schedule: seq<Event>, k: nat) {
    k < |schedule| && schedule[k].Resume? && forall t :: t in list ==> SettlesBy(t, before, schedule, k)
  }

  ghost predicate AddsNothing(schedule: seq<Event>) {
    forall k :: 0 <= k < |schedule| ==> !schedule[k].Add?
  }

  class AsyncTaskManager {
    var tasks: seq<TaskId>
    var errors: seq<int>
    var cancellableTasks: set<TaskId>
    /** The cancellation token. */
    var cancelled: bool
    /** Tasks whose cancel() was called. */
    var cancelRequests: set<TaskId>
    /** The settled promises. */
    var outcomes: map<TaskId, Outcome>
    /** The promises this manager was given and accepted so far, in order: the record the guarantees speak of. */
    var added: seq<TaskId>
    /** Those of them that drains have taken to wait for, in order, and those that cancelTasks() dropped before. */
    ghost var taken: seq<TaskId>
    ghost var dropped: set<TaskId>

    constructor ()
      ensures Valid() && added == taken == [] && dropped == {} && !cancelled && outcomes == map[]
    {
      tasks, errors, cancellableTasks, cancelled, cancelRequests, outcomes := [], [], {}, false, {}, map[];
      added, taken, dropped := [], [], {};
    }

    ghost predicate Valid()
      reads this
    {
      && Accounted(added, dropped, taken, tasks)
      && (forall t :: t in outcomes ==> t in added)
      && (errors == [] ==> forall t :: t in outcomes ==> outcomes[t].Fulfilled?)
      && cancellableTasks !! outcomes.Keys
    }

    /** What any step leaves of the past. */
    twostate predicate Continues()
      reads this
    {
      && old(added) <= added && Grows(old(outcomes), outcomes) && old(errors) <= errors
      && old(taken) <= taken && old(dropped) <= dropped
      && (old(cancelled) ==> cancelled && added == old(added))
    }

    /** addTask of a promise not added before; after a cancellation it is cancelled instead. */
    method AddTask(task: TaskId, cancellable: bool)
      requires Valid() && task !in added
      modifies this
      ensures Valid() && Continues() && taken == old(taken) && dropped == old(dropped) && cancelled == old(cancelled)
      ensures errors == old(errors) && outcomes == old(outcomes)
      ensures added == if cancelled then old(added) else old(added) + [task]
      ensures tasks == if cancelled then old(tasks) else old(tasks) + [task]
      ensures cancelled && cancellable ==> task in cancelRequests
    {
      hide Accounted;
      if cancelled {
        if cancellable {
          cancelRequests := cancelRequests + {task};
        }
        return;
      }
      if cancellable {
        cancellableTasks := cancellableTasks + {task};
      }
      AccountedAdd(added, dropped, taken, tasks, task);
      tasks := tasks + [task];
      added := added + [task];
    }

    /** A promise settles: a failure is recorded, and the task is no longer cancellable. */
    method SettleTask(task: TaskId, outcome: Outcome)
      requires Valid() && task in added && task !in outcomes
      modifies this
      ensures Valid() && Continues() && taken == old(taken) && dropped == old(dropped) && cancelled == old(cancelled)
      ensures added == old(added) && tasks == old(tasks) && outcomes == old(outcomes)[task := outcome]
      ensures errors == if outcome.Rejected? then old(errors) + [outcome.error] else old(errors)
    {
      hide Accounted;
      if outcome.Rejected? {
        errors := errors + [outcome.error];
      }
      outcomes := outcomes[task := outcome];
      cancellableTasks := cancellableTasks - {task};
    }

    /** cancelTasks: cancels what can be cancelled and drops every task no drain has taken yet. */
    method CancelTasks()
      requires Valid()
      modifies this
      ensures Valid() && Continues() && tasks == [] && cancellableTasks == {} && cancelled == old(cancelled)
      ensures cancelRequests == old(cancelRequests) + old(cancellableTasks)
      ensures added == old(added) && errors == old(errors) && outcomes == old(outcomes) && taken == old(taken)
      ensures dropped == old(dropped) + set t | t in old(tasks)
    {
      hide Accounted;
      cancelRequests := cancelRequests + cancellableTasks;
      cancellableTasks := {};
      AccountedDrop(added, dropped, taken, tasks);
      dropped := dropped + set t | t in tasks;
      tasks := [];
    }

    /** Some other code runs: an event for a task it does not apply to does nothing. */
    method Happen(event: Event)
      requires Valid()
      modifies this
      ensures Valid() && Continues() && taken == old(taken)
      ensures event.Settle? && event.task in old(added) ==> event.task in outcomes
      ensures !event.Add? && old(tasks) == [] ==> tasks == []
    {
      hide Accounted;
      match event
      case Add(task, cancellable) =>
        if task !in added {
          AddTask(task, cancellable);
        }
      case Settle(task, outcome) =>
        if task in added && task !in outcomes {
          SettleTask(task, outcome);
        }
      case Cancel => CancelTasks();
      case CancelToken =>
        cancelled := true;
      case Resume =>
    }

    /** await Promise.all(list): other code runs until everything has settled and the drain is resumed. */
    method AwaitAll(list: seq<TaskId>, schedule: seq<Event>) returns (settled: bool, rest: seq<Event>)
      requires Valid()
      modifies this
      ensures Valid() && Continues() && taken == old(taken)
      ensures settled ==> AllSettled(list, outcomes) && |rest| < |schedule|
      ensures (forall t :: t in list ==> t in old(added)) && (exists k :: Resumes(list, old(outcomes), schedule, k)) ==> settled
      ensures AddsNothing(schedule) && old(tasks) == [] ==> tasks == []
    {
      hide Accounted;
      rest := schedule;
      ghost var n := 0;
      while |rest| > 0
        invariant Valid() && Continues() && taken == old(taken)
        invariant n <= |schedule| && rest == schedule[n..]
        invariant forall t :: t in old(added) && SettlesBy(t, old(outcomes), schedule, n) ==> t in outcomes
        invariant (forall t :: t in list ==> t in old(added)) ==> forall k :: 0 <= k < n ==> !Resumes(list, old(outcomes), schedule, k)
        invariant AddsNothing(schedule) && old(tasks) == [] ==> tasks == []
      {
        var event := rest[0];
        assert event == schedule[n];
        assert Resumes(list, old(outcomes), schedule, n) && (forall t :: t in list ==> t in old(added)) ==> event.Resume? && AllSettled(list, outcomes);
        rest := rest[1..];
        n := n + 1;
        if event.Resume? && AllSettled(list, outcomes) {
          return true, rest;
        }
        Happen(event);
      }
      settled := false;
    }

    /** These tasks have all settled, none of them with a failure. */
    ghost predicate Succeeded(list: seq<TaskId>)
      reads this
    {
      AllSettled(list, outcomes) && forall t :: t in list ==> outcomes[t].Fulfilled?
    }

    /** A drain moves the waiting tasks to those it waits for. */
    method Take() returns (list: seq<TaskId>)
      requires Valid()
      modifies this`tasks, this`taken
      ensures Valid() && list == old(tasks) && tasks == [] && taken == old(taken) + list
    {
      hide Accounted;
      AccountedTake(added, dropped, taken, tasks);
      list := tasks;
      tasks := [];
      taken := taken + list;
    }

    /** One turn of the drain: waits for `list`; the tasks waited for before have succeeded still. */
    method AwaitRound(list: seq<TaskId>, schedule: seq<Event>, result: seq<Option<int>>, ghost done: seq<TaskId>)
      returns (settled: bool, rest: seq<Event>, more: seq<Option<int>>)
      requires Valid() && Succeeded(done) && result == Values(done, outcomes)
      modifies this
      ensures Valid() && Continues() && taken == old(taken)
      ensures settled ==> |rest| < |schedule|
      ensures (forall t :: t in list ==> t in old(added)) && (exists k :: Resumes(list, old(outcomes), schedule, k)) ==> settled
      ensures AddsNothing(schedule) && old(tasks) == [] ==> tasks == []
      ensures settled && errors == [] ==> Succeeded(done + list) && more == Values(done + list, outcomes)
    {
      hide Accounted;
      settled, rest := AwaitAll(list, schedule);
      more := result;
      if settled {
        ValuesAreFinal(done, old(outcomes), outcomes);
        more := result + Values(list, outcomes);
        if errors == [] {
          SucceededJoin(done, list);
        }
      }
    }

    lemma SucceededJoin(done: seq<TaskId>, list: seq<TaskId>)
      requires AllSettled(done, outcomes) && AllSettled(list, outcomes) && forall t :: t in outcomes ==> outcomes[t].Fulfilled?
      ensures Succeeded(done + list) && Values(done + list, outcomes) == Values(done, outcomes) + Values(list, outcomes)
    {
    }

    /**
     awaitTasks. When it returns without having been cancelled, nothing is lost: every task added and not dropped by a
     cancelTasks() has been taken, the ones taken since the last drain have all settled, none failed, and there is one
     value for each of these in order of addition. It does return, or throw, once all the tasks it took have settled, when
     no more are added.
     */
    method AwaitTasks(schedule: seq<Event>) returns (completion: Completion)
      requires Valid()
      modifies this
      ensures Valid() && Continues()
      ensures completion.Threw? ==> completion.errors == errors != []
      ensures old(errors) != [] && !old(cancelled) ==> completion == Threw(old(errors))
      ensures AddsNothing(schedule) && (exists k :: Resumes(old(tasks), old(outcomes), schedule, k)) ==> !completion.Waiting?
      ensures completion.Returned? && !(cancelled && completion.values == []) ==>
                && errors == [] && tasks == [] && taken == Kept(added, dropped)
                && Succeeded(taken[|old(taken)|..])
                && |completion.values| == |taken| - |old(taken)|
                && forall k :: 0 <= k < |completion.values| ==> completion.values[k] == Some(outcomes[taken[|old(taken)| + k]].value)
    {
      hide Accounted, Kept, Values;
      if cancelled {
        CancelTasks();
        return Returned([]);
      }
      if |errors| > 0 {
        CancelTasks();
        return Threw(errors);
      }
      var result := [];
      WaitingIsAdded(added, dropped, taken, tasks);
      ghost var finishes := AddsNothing(schedule) && exists k :: Resumes(tasks, outcomes, schedule, k);
      var list := Take();
      ghost var done: seq<TaskId> := [];
      var rest := schedule;
      NoValues(outcomes);
      while |list| > 0
        invariant Valid() && Continues() && errors == []
        invariant old(errors) == [] && taken == old(taken) + done + list && (list == [] ==> tasks == [])
        invariant Succeeded(done) && result == Values(done, outcomes)
        invariant finishes && list != [] ==> list == old(tasks) && rest == schedule && outcomes == old(outcomes) && added == old(added) && tasks == []
        decreases |rest|, |list|
      {
        var settled;
        settled, rest, result := AwaitRound(list, rest, result, done);
        if !settled {
          return Waiting;
        }
        if |errors| > 0 {
          CancelTasks();
          return Threw(errors);
        }
        done := done + list;
        assert taken == old(taken) + done;
        if |tasks| == 0 {
          list := [];
          break;
        }
        if cancelled {
          CancelTasks();
          return Returned([]);
        }
        list := Take();
      }
      assert taken[|old(taken)|..] == done;
      ValuesOfFulfilled(done, outcomes);
      AllTaken(added, dropped, taken);
      completion := Returned(result);
    }

    /** When all earlier drains returned so, every task added and not dropped has settled and none has failed. */
    twostate lemma NothingLost()
      requires old(Valid()) && Valid() && Continues() && errors == []
      requires taken == Kept(added, dropped) && Succeeded(taken[|old(taken)|..])
      requires old(Succeeded(taken))
      ensures Succeeded(taken) && forall t :: t in added && t !in dropped ==> t in outcomes && outcomes[t].Fulfilled?
    {
      hide Accounted;
      SucceededJoin(old(taken), taken[|old(taken)|..]);
      assert taken == old(taken) + taken[|old(taken)|..];
      forall t | t in added && t !in dropped ensures t in outcomes {
        KeptMembers(added, dropped, t);
      }
    }
  }

  lemma ValuesOfFulfilled(tasks: seq<TaskId>, outcomes: map<TaskId, Outcome>)
    requires AllSettled(tasks, outcomes)
    ensures forall k :: 0 <= k < |tasks| && outcomes[tasks[k]].Fulfilled? ==> Values(tasks, outcomes)[k] == Some(outcomes[tasks[k]].value)
  {
  }

  lemma NoValues(outcomes: map<TaskId, Outcome>)
    ensures Values([], outcomes) == []
  {
  }

  lemma ValuesAreFinal(tasks: seq<TaskId>, before: map<TaskId, Outcome>, after: map<TaskId, Outcome>)
    requires AllSettled(tasks, before) && Grows(before, after)
    ensures AllSettled(tasks, after) && Values(tasks, after) == Values(tasks, before)
  {
  }
}
