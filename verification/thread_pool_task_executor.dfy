/** The counting logic of the thread-pool task executor (`ThreadPoolTaskExecutor`): how
    submissions and results are counted, when the "all tasks finished" signal is sent, and which
    results count as failures.  The worker and listener threads, the blocking queues and the
    waiting itself are not part of this model; the signal is a flag that a reset clears and the
    last result sets. */
module ThreadPoolTaskExecutor {
  import opened Wrappers
  import opened JavaInt

  /** `FinishState`, with `signalled` standing for the state of its `Signal`. */
  datatype FinishState = FinishState(
    submissionsOpen: bool,
    numSubmitted: int,
    numWin: int,
    numFail: int,
    signalled: bool)

  /** Tasks whose results have not come back yet. */
  function Pending(s: FinishState): int {
    s.numSubmitted - s.numWin - s.numFail
  }

  /** The counters are nonnegative and never count more results than submissions. */
  predicate Consistent(s: FinishState) {
    s.numWin >= 0 && s.numFail >= 0 && Pending(s) >= 0
  }

  /** `reset()`: submissions open, every counter zero, no signal. */
  function Reset(): (r: FinishState)
    ensures r.submissionsOpen && r.numSubmitted == 0 && r.numWin == 0 && r.numFail == 0 && !r.signalled
  {
    FinishState(true, 0, 0, 0, false)
  }

  /** A reset state is consistent and has nothing pending. */
  lemma ResetConsistent()
    ensures Consistent(Reset()) && Pending(Reset()) == 0
  {
  }

  /** `recordSubmission()`: a batch whose submissions were closed starts over before counting the
      new task. */
  function RecordSubmission(s: FinishState): (r: FinishState)
    ensures s.submissionsOpen ==> r == s.(numSubmitted := s.numSubmitted + 1)
    ensures !s.submissionsOpen ==> r == FinishState(true, 1, 0, 0, false)
    ensures Consistent(s) ==> Consistent(r)
    ensures s.submissionsOpen ==> Pending(r) == Pending(s) + 1
    ensures !s.submissionsOpen ==> Pending(r) == 1
  {
    if s.submissionsOpen then FinishState(true, s.numSubmitted + 1, s.numWin, s.numFail, s.signalled)
    else FinishState(true, 1, 0, 0, false)
  }

  /** `waitForSignal()` closes submissions before it blocks. */
  function WaitForSignal(s: FinishState): (r: FinishState)
    ensures !r.submissionsOpen
    ensures r.numSubmitted == s.numSubmitted && r.numWin == s.numWin && r.numFail == s.numFail
    ensures r.signalled == s.signalled
  {
    s.(submissionsOpen := false)
  }

  /** `recordResult(isFail)`: count exactly one failure or one win, and signal when this was the
      last task.  Returns the new state and whether the signal was sent by this call. */
  function RecordResult(s: FinishState, isFail: bool): (r: (FinishState, bool))
    ensures isFail ==> r.0.numFail == s.numFail + 1 && r.0.numWin == s.numWin
    ensures !isFail ==> r.0.numWin == s.numWin + 1 && r.0.numFail == s.numFail
    ensures r.0.numSubmitted == s.numSubmitted && r.0.submissionsOpen == s.submissionsOpen
    ensures r.1 <==> r.0.numWin + r.0.numFail == r.0.numSubmitted
    ensures r.0.signalled == (s.signalled || r.1)
    ensures Pending(r.0) == Pending(s) - 1
  {
    var s' := if isFail then s.(numFail := s.numFail + 1) else s.(numWin := s.numWin + 1);
    var isLastTask := s'.numWin + s'.numFail == s'.numSubmitted;
    (if isLastTask then s'.(signalled := true) else s', isLastTask)
  }

  /** A result for a pending task keeps the counters consistent. */
  lemma RecordResultConsistent(s: FinishState, isFail: bool)
    requires Consistent(s) && Pending(s) > 0
    ensures Consistent(RecordResult(s, isFail).0)
    ensures RecordResult(s, isFail).1 <==> Pending(s) == 1
  {
  }

  /** The results of a batch, in order, with whether each one sent the signal. */
  function RecordResults(s: FinishState, fails: seq<bool>): (r: (FinishState, seq<bool>))
    ensures |r.1| == |fails|
    ensures Pending(r.0) == Pending(s) - |fails|
    ensures r.0.numSubmitted == s.numSubmitted
    decreases |fails|
  {
    if |fails| == 0 then (s, [])
    else
      var step := RecordResult(s, fails[0]);
      var rest := RecordResults(step.0, fails[1..]);
      (rest.0, [step.1] + rest.1)
  }

  /** When exactly the pending tasks report back, the signal is sent by the last result and by no
      earlier one, and every result is counted once as a win or a failure. */
  lemma {:induction false} SignalOnlyAtLastResult(s: FinishState, fails: seq<bool>)
    requires Consistent(s) && |fails| == Pending(s)
    ensures var r := RecordResults(s, fails);
      && Consistent(r.0)
      && Pending(r.0) == 0
      && (forall i | 0 <= i < |fails| :: r.1[i] <==> i == |fails| - 1)
      && r.0.numWin + r.0.numFail == s.numWin + s.numFail + |fails|
    decreases |fails|
  {
    if |fails| > 0 {
      var step := RecordResult(s, fails[0]);
      RecordResultConsistent(s, fails[0]);
      SignalOnlyAtLastResult(step.0, fails[1..]);
      var rest := RecordResults(step.0, fails[1..]);
      assert RecordResults(s, fails).1 == [step.1] + rest.1;
    }
  }

  // ---------------------------------------------------------------------------
  // Which results are failures.

  /** A runnable as the threads see it: a plain task, a task with a listener (whether the listener
      throws is part of the task), or the placeholder for a task that threw. */
  datatype Task = Plain | Listening(listenerThrows: bool) | FailedTask

  /** The worker: a task that throws is replaced by a `FailedTask`. */
  function RunTask(t: Task, runThrows: bool): (r: Task)
    ensures runThrows ==> r == FailedTask
    ensures !runThrows ==> r == t
  {
    if runThrows then FailedTask else t
  }

  /** The listener thread: whether the result is a failure, and whether a listener was called. */
  function ListenResult(t: Task): (r: (bool, bool))
    ensures r.1 <==> t.Listening?
    ensures r.0 <==> t == FailedTask || (t.Listening? && t.listenerThrows)
  {
    var isFail := t == FailedTask;
    if !isFail && t.Listening? then (t.listenerThrows, true)
    else (isFail, false)
  }

  /** End to end: a submitted task counts as a failure exactly when it threw or its listener threw,
      and a listener is never called for a task that threw. */
  lemma FailureTagging(t: Task, runThrows: bool)
    requires t != FailedTask
    ensures ListenResult(RunTask(t, runThrows)).0 <==> runThrows || (t.Listening? && t.listenerThrows)
    ensures ListenResult(RunTask(t, runThrows)).1 <==> !runThrows && t.Listening?
  {
  }

  // ---------------------------------------------------------------------------
  // Submitting.

  /** The executor: started once `start` made the queues. */
  datatype Executor = Executor(started: bool, finish: FinishState)

  datatype Error = NotStarted | IllegalCapacity | IllegalThreadCount

  /** `start(numThreads)`: the task queues are made with room for twice as many tasks as threads
      (a 32-bit product), which must be at least one; then the finish state is reset and the thread
      list is made with room for `numThreads` threads, which must not be negative.  When the queues
      cannot be made, `start` throws and nothing changes.  When only the thread list cannot be made,
      `start` throws after the queues exist and the finish state is reset, so the pool counts as
      started (it accepts submissions) although it has no threads.  The result is the executor
      afterwards and whether `start` threw. */
  function Start(e: Executor, numThreads: int): (r: (Executor, Outcome<Error>))
    ensures r.1 == Fail(IllegalCapacity) <==> Wrap32(numThreads * 2) < 1
    ensures r.1 == Fail(IllegalThreadCount) <==> Wrap32(numThreads * 2) >= 1 && numThreads < 0
    ensures r.1.Fail? ==> r.1 == Fail(IllegalCapacity) || r.1 == Fail(IllegalThreadCount)
    ensures r.1 == Fail(IllegalCapacity) ==> r.0 == e
    ensures r.1 != Fail(IllegalCapacity) ==> r.0.started && r.0.finish == Reset()
  {
    if Wrap32(numThreads * 2) < 1 then (e, Fail(IllegalCapacity))
    else if numThreads < 0 then (Executor(true, Reset()), Fail(IllegalThreadCount))
    else (Executor(true, Reset()), Pass)
  }

  /** For any int thread count, `start` returns normally exactly for 1 to 2^30 - 1 threads: zero
      threads make empty queues, a negative count throws at one of the two allocations, and from
      2^30 on the doubled capacity wraps to a negative int. */
  lemma StartNeedsThreads(e: Executor, numThreads: int)
    requires IsInt32(numThreads)
    ensures Start(e, numThreads).1.Pass? <==> 1 <= numThreads < 0x4000_0000
  {
    var d := numThreads * 2;
    if IsInt32(d) {
      Wrap32Positive(d);
    } else if d > IntMax {
      Wrap32Above(d);
    } else {
      Wrap32Below(d);
    }
  }

  /** A negative thread count whose doubling wraps to a positive capacity (-2^31 + 1 to
      -2^30 - 1) gets past the queues and throws only at the thread list, leaving a pool that
      accepts submissions. */
  lemma HalfStartAcceptsSubmissions(e: Executor, numThreads: int)
    requires IsInt32(numThreads)
    ensures Start(e, numThreads).1 == Fail(IllegalThreadCount) <==> IntMin < numThreads < -0x4000_0000
    ensures Start(e, numThreads).1 == Fail(IllegalThreadCount) ==> Submit(Start(e, numThreads).0).Success?
  {
    var d := numThreads * 2;
    if IsInt32(d) {
      Wrap32Positive(d);
    } else if d > IntMax {
      Wrap32Above(d);
    } else {
      Wrap32Below(d);
    }
  }

  /** `submit(task)`: refused before `start`; otherwise the submission is counted. */
  function Submit(e: Executor): (r: Result<Executor, Error>)
    ensures !e.started <==> r == Failure(NotStarted)
    ensures r.Success? ==> r.value == e.(finish := RecordSubmission(e.finish))
  {
    if !e.started then Failure(NotStarted) else Success(e.(finish := RecordSubmission(e.finish)))
  }

  /** After start, n submissions leave n pending tasks with submissions still open. */
  lemma {:induction false} SubmitBatch(e: Executor, n: nat)
    requires e.started && e.finish.submissionsOpen && Consistent(e.finish)
    ensures SubmitMany(e, n).Success?
    ensures Pending(SubmitMany(e, n).value.finish) == Pending(e.finish) + n
    ensures Consistent(SubmitMany(e, n).value.finish) && SubmitMany(e, n).value.finish.submissionsOpen
  {
    if n > 0 {
      SubmitBatch(e, n - 1);
    }
  }

  function SubmitMany(e: Executor, n: nat): Result<Executor, Error> {
    if n == 0 then Success(e)
    else
      var e' :- SubmitMany(e, n - 1);
      Submit(e')
  }
}
