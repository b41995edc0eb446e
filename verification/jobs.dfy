/**
 * The job queue and its worker: `enqueue` puts a task at the tail of the
 * queue, and the worker takes tasks from the head one at a time, runs each,
 * catches an `Exception` raised by it and goes on, and calls `task_done` once
 * per task. The background thread and the blocking `get` are replaced by an
 * explicit drain of the queue; with one consumer, tasks run one at a time.
 */
module Jobs {

  /**
   * How running a task ended: normally, or by raising an `Exception`, which
   * the worker catches. A `BaseException` that is not an `Exception` would end
   * the worker and is not an outcome here.
   */
  datatype Outcome = Completed | Failed

  /** One run of the worker loop: the task it took and how the task ended. */
  datatype Run<T> = Run(task: T, outcome: Outcome)

  /** The runs the worker makes for `tasks`, in queue order; `outcomeOf` says which raise. */
  function Runs<T>(tasks: seq<T>, outcomeOf: T -> Outcome): seq<Run<T>> {
    if tasks == [] then [] else [Run(tasks[0], outcomeOf(tasks[0]))] + Runs(tasks[1..], outcomeOf)
  }

  /** The tasks of a history, in the order they were run. */
  function Executed<T>(history: seq<Run<T>>): (tasks: seq<T>)
    ensures |tasks| == |history|
  {
    if history == [] then [] else [history[0].task] + Executed(history[1..])
  }

  lemma {:induction false} RunsAppend<T>(a: seq<T>, b: seq<T>, outcomeOf: T -> Outcome)
    ensures Runs(a + b, outcomeOf) == Runs(a, outcomeOf) + Runs(b, outcomeOf)
  {
    if a == [] {
      assert a + b == b;
    } else {
      assert (a + b)[1..] == a[1..] + b;
      RunsAppend(a[1..], b, outcomeOf);
    }
  }

  /**
   * Every task runs exactly once, in the order it was queued, whatever the
   * outcomes: a task that raises an `Exception` does not stop or reorder the
   * tasks after it.
   */
  lemma {:induction false} RunsAreFifo<T>(tasks: seq<T>, outcomeOf: T -> Outcome)
    ensures Executed(Runs(tasks, outcomeOf)) == tasks
  {
    if tasks != [] {
      RunsAreFifo(tasks[1..], outcomeOf);
    }
  }

  /** The i-th run is of the i-th task queued, with that task's outcome. */
  lemma {:induction false} RunAt<T>(tasks: seq<T>, outcomeOf: T -> Outcome, i: nat)
    requires i < |tasks|
    ensures |Runs(tasks, outcomeOf)| == |tasks|
    ensures Runs(tasks, outcomeOf)[i] == Run(tasks[i], outcomeOf(tasks[i]))
  {
    if i > 0 {
      RunAt(tasks[1..], outcomeOf, i - 1);
    } else if |tasks| > 1 {
      RunAt(tasks[1..], outcomeOf, 0);
    }
  }

  /** Two runs of the same queue take the same tasks in the same order, whichever fail. */
  lemma OutcomesDoNotChangeTheSchedule<T>(tasks: seq<T>, f: T -> Outcome, g: T -> Outcome)
    ensures Executed(Runs(tasks, f)) == Executed(Runs(tasks, g))
  {
    RunsAreFifo(tasks, f);
    RunsAreFifo(tasks, g);
  }

  /** `job_queue` together with the worker that drains it. */
  class JobQueue<T> {
    /** Tasks put and not yet taken, head first. */
    var pending: seq<T>
    /** `Queue.unfinished_tasks`: raised by `put`, lowered by `task_done`. */
    var unfinished: nat
    /** The runs the worker has made, oldest first. */
    var history: seq<Run<T>>

    ghost predicate Valid()
      reads this
    {
      unfinished == |pending|
    }

    constructor ()
      ensures Valid()
      ensures pending == [] && history == [] && unfinished == 0
    {
      pending, unfinished, history := [], 0, [];
    }

    /** `enqueue(task)`: `job_queue.put(task)`, which never blocks. */
    method Enqueue(task: T)
      requires Valid()
      modifies this
      ensures Valid()
      ensures pending == old(pending) + [task]
      ensures unfinished == old(unfinished) + 1
      ensures history == old(history)
    {
      pending := pending + [task];
      unfinished := unfinished + 1;
    }

    /**
     * One turn of the worker loop: take the head task, run it, catch its
     * failure, call `task_done`. With nothing queued the worker waits, which
     * here leaves everything as it is and reports `ran == false`.
     */
    method RunNext(outcomeOf: T -> Outcome) returns (ran: bool)
      requires Valid()
      modifies this
      ensures Valid()
      ensures ran == (old(pending) != [])
      ensures ran ==> (
                pending == old(pending)[1..]
                && history == old(history) + [Run(old(pending)[0], outcomeOf(old(pending)[0]))]
                && unfinished == old(unfinished) - 1)
      ensures !ran ==> pending == old(pending) && history == old(history) && unfinished == old(unfinished)
    {
      if pending == [] {
        return false;
      }
      var task := pending[0];
      pending := pending[1..];
      var outcome := outcomeOf(task);
      history := history + [Run(task, outcome)];
      unfinished := unfinished - 1;
      ran := true;
    }

    /**
     * The worker until the queue is empty: every queued task is run once, in
     * queue order, failures included, and `task_done` brings the count of
     * unfinished tasks back to zero.
     */
    method RunAll(outcomeOf: T -> Outcome)
      requires Valid()
      modifies this
      ensures Valid()
      ensures pending == [] && unfinished == 0
      ensures history == old(history) + Runs(old(pending), outcomeOf)
    {
      ghost var queued := pending;
      ghost var done := 0;
      while pending != []
        invariant Valid()
        invariant 0 <= done <= |queued| && pending == queued[done..]
        invariant history == old(history) + Runs(queued[..done], outcomeOf)
        decreases |pending|
      {
        var task := pending[0];
        var _ := RunNext(outcomeOf);
        assert task == queued[done];
        RunsAppend(queued[..done], [task], outcomeOf);
        assert queued[..done + 1] == queued[..done] + [task];
        done := done + 1;
      }
      assert queued[..done] == queued;
    }
  }
}
