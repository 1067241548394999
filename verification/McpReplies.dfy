/** What reaches stdout over whole interleavings: replies in the order they were queued, and no answer twice. */
module McpReplies {
  import opened Wrappers
  import opened McpControl
  import opened McpThreads
  import opened McpInvariants
  import opened McpProgress

  // ---- Order ----

  /** The reply the writer holds and has not written. */
  function InHand(w: Writer): seq<Option<Id>> {
    match w
    case Checking(retire) => [retire]
    case Writing(retire, _) => [retire]
    case _ => []
  }

  /** A writer that has not given up: everything queued is written, in its hand, or still in the queue, in order. */
  predicate InSequence(s: System) {
    match s.writer
    case WriteFailed => s.stdout <= s.replies
    case Ending => s.stdout <= s.replies
    case Closing => s.stdout <= s.replies
    case Gone => s.stdout <= s.replies
    case _ => s.replies == s.stdout + InHand(s.writer) + s.outputs
  }

  lemma ReaderInSequence(s: System, input: Input)
    requires InSequence(s)
    ensures InSequence(ReaderNext(s, input))
  {
    hide AfterStop, AfterCancel, AfterRegister, WithStage;
  }

  lemma WorkerInSequence(s: System, timeout: bool)
    requires InSequence(s)
    ensures InSequence(WorkerNext(s, timeout))
  {
    hide AfterStop, AfterBegin, AfterEnd;
  }

  lemma WriterInSequence(s: System, fails: bool)
    requires InSequence(s) && WriterOk(s.control, s.writer)
    ensures InSequence(WriterNext(s, fails))
  {
    hide AfterStop, Without;
  }

  lemma {:induction false} StepInSequence(s: System, step: Step)
    requires InSequence(s) && WriterOk(s.control, s.writer)
    ensures InSequence(Next(s, step))
  {
    hide InSequence, ReaderNext, WorkerNext, WriterNext, WriterOk;
    match step
    case ReaderStep(input) => ReaderInSequence(s, input);
    case WorkerStep(timeout) => WorkerInSequence(s, timeout);
    case WriterStep(fails) => WriterInSequence(s, fails);
    case InterrupterStep => InterrupterInSequence(s);
  }

  lemma InterrupterInSequence(s: System)
    requires InSequence(s)
    ensures InSequence(InterrupterNext(s))
  {
    hide AfterInspect;
  }

  lemma {:induction false} SequenceKept(steps: seq<Step>)
    ensures InSequence(After(steps))
    decreases |steps|
  {
    hide InSequence, Inv, Next, Partition;
    if steps == [] {
      StartInSequence();
    } else {
      var before := steps[..|steps| - 1];
      SequenceKept(before);
      Reachable(before);
      Facts(After(before));
      StepInSequence(After(before), steps[|steps| - 1]);
    }
  }

  lemma StartInSequence()
    ensures InSequence(START)
  {
  }

  /**
   What stands on stdout is always a beginning of what was queued, in the same order and without repetition or loss;
   while the writer works nothing else is missing than the reply in its hand and the queue.
   */
  lemma {:induction false} WrittenInOrder(steps: seq<Step>)
    ensures var s := After(steps);
            && s.stdout <= s.replies
            && (s.writer.Receiving? ==> s.replies == s.stdout + s.outputs)
  {
    hide After;
    SequenceKept(steps);
  }

  // ---- Each registration is answered at most once ----

  function Registrations(log: seq<Event>, id: Id): nat
    decreases |log|
  {
    if log == [] then 0
    else Registrations(log[..|log| - 1], id) + if log[|log| - 1] == DidRegister(id) then 1 else 0
  }

  function Discards(log: seq<Event>, id: Id): nat
    decreases |log|
  {
    if log == [] then 0
    else Discards(log[..|log| - 1], id) + if log[|log| - 1] == DidDiscard(id) then 1 else 0
  }

  function Retirements(log: seq<Event>, id: Id): nat
    decreases |log|
  {
    if log == [] then 0
    else Retirements(log[..|log| - 1], id) + if log[|log| - 1] == DidRetire(id) then 1 else 0
  }

  lemma {:induction false} BalanceCounts(log: seq<Event>, id: Id)
    ensures Balance(log, id) == Registrations(log, id) - Discards(log, id) - Retirements(log, id)
    decreases |log|
  {
    if log != [] {
      BalanceCounts(log[..|log| - 1], id);
    }
  }

  /** How often the id was answered on stdout. */
  function Answers(stdout: seq<Option<Id>>, id: Id): nat {
    multiset(stdout)[Some(id)]
  }

  /** Answered are the retired ids and the one the writer is about to retire. */
  predicate AnswersMatch(s: System, id: Id) {
    Answers(s.stdout, id) == Retirements(s.log, id) + One(s.writer == Retiring(id))
  }

  lemma RetiredMore(log: seq<Event>, e: Event, id: Id)
    ensures Retirements(log + [e], id) == Retirements(log, id) + One(e == DidRetire(id))
  {
    assert (log + [e])[..|log|] == log;
  }

  lemma {:induction false} ReaderAnswers(s: System, input: Input, id: Id)
    requires AnswersMatch(s, id)
    ensures AnswersMatch(ReaderNext(s, input), id)
  {
    hide AfterStop, AfterCancel, AfterRegister, WithStage, Retirements, Answers;
    if s.reader.Registering? {
      RetiredMore(s.log, DidRegister(s.reader.id), id);
    }
  }

  lemma {:induction false} WorkerAnswers(s: System, timeout: bool, id: Id)
    requires AnswersMatch(s, id)
    ensures AnswersMatch(WorkerNext(s, timeout), id)
  {
    hide AfterStop, AfterBegin, AfterEnd, Retirements, Answers;
    if s.worker.Beginning? || s.worker.Executing? {
      RetiredMore(s.log, DidDiscard(s.worker.id), id);
    }
  }

  lemma {:induction false} WriterAnswers(s: System, fails: bool, id: Id)
    requires AnswersMatch(s, id) && WriterOk(s.control, s.writer)
    ensures AnswersMatch(WriterNext(s, fails), id)
  {
    hide AfterStop, Without, Retirements, Answers;
    if s.writer.Retiring? {
      RetiredMore(s.log, DidRetire(s.writer.id), id);
    } else if s.writer.Writing? {
      AnswersMore(s.stdout, s.writer.retire, id);
      assert s.stdout + [] == s.stdout;
    }
  }

  lemma AnswersMore(stdout: seq<Option<Id>>, retire: Option<Id>, id: Id)
    ensures Answers(stdout + [retire], id) == Answers(stdout, id) + One(retire == Some(id))
  {
  }

  lemma {:induction false} StepAnswers(s: System, step: Step, id: Id)
    requires AnswersMatch(s, id) && WriterOk(s.control, s.writer)
    ensures AnswersMatch(Next(s, step), id)
  {
    hide ReaderNext, WorkerNext, WriterNext, WriterOk, Answers, Retirements, AfterInspect;
    match step
    case ReaderStep(input) => ReaderAnswers(s, input, id);
    case WorkerStep(timeout) => WorkerAnswers(s, timeout, id);
    case WriterStep(fails) => WriterAnswers(s, fails, id);
    case InterrupterStep =>
  }

  lemma {:induction false} AnswersKept(steps: seq<Step>, id: Id)
    ensures AnswersMatch(After(steps), id)
    decreases |steps|
  {
    hide AnswersMatch, Inv, Next, Partition;
    if steps == [] {
      StartAnswers(id);
    } else {
      var before := steps[..|steps| - 1];
      AnswersKept(before, id);
      Reachable(before);
      Facts(After(before));
      StepAnswers(After(before), steps[|steps| - 1], id);
    }
  }

  lemma StartAnswers(id: Id)
    ensures AnswersMatch(START, id)
  {
  }

  /**
   Conservation of requests: every registration of an id has been answered on stdout exactly once, or discarded as
   cancelled or stopped, or is the one still outstanding; only between a write and its retirement does an outstanding
   id already have its answer.
   */
  lemma {:induction false} AnsweredOnce(steps: seq<Step>, id: Id)
    ensures var s := After(steps);
            && Registrations(s.log, id) ==
               Answers(s.stdout, id) + Discards(s.log, id)
               + One(id in s.control.calls && s.writer != Retiring(id))
            && (s.writer == Retiring(id) ==> id in s.control.calls)
  {
    hide After, Inv, Partition, Balance, Registrations, Discards, Retirements, Answers;
    AnswersKept(steps, id);
    RetiredAtMostOnce(steps, id);
    BalanceCounts(After(steps).log, id);
    Reachable(steps);
    Facts(After(steps));
  }

  // ---- Cancelled calls ----

  lemma {:induction false} ReaderKeepsCancelled(s: System, input: Input, id: Id)
    requires ReaderOk(s.control, s.reader) && CancelledCall(s.control, id)
    ensures CancelledCall(ReaderNext(s, input).control, id) && ReaderNext(s, input).stdout == s.stdout
  {
    hide AfterStop, AfterCancel;
    StopCalls(s.control);
    if s.reader.Cancelling? {
      CancelMarks(s.control, s.reader.id);
    }
  }

  lemma {:induction false} WorkerKeepsCancelled(s: System, timeout: bool, id: Id)
    requires WorkerOk(s.control, s.worker) && CancelledCall(s.control, id)
    ensures var t := WorkerNext(s, timeout);
            t.stdout == s.stdout && (CancelledCall(t.control, id) || t.log == s.log + [DidDiscard(id)])
  {
    hide AfterStop;
    StopCalls(s.control);
  }

  lemma {:induction false} WriterKeepsCancelled(s: System, fails: bool, id: Id)
    requires WriterOk(s.control, s.writer) && CancelledCall(s.control, id)
    ensures var t := WriterNext(s, fails);
            && CancelledCall(t.control, id)
            && (t.stdout == s.stdout
                || (t.stdout == s.stdout + [t.stdout[|s.stdout|]] && t.stdout[|s.stdout|] != Some(id)))
  {
    hide AfterStop;
    StopCalls(s.control);
    if s.writer.Writing? {
      assert s.stdout + [] == s.stdout;
    }
  }

  lemma {:induction false} StepKeepsCancelled(s: System, step: Step, id: Id)
    requires Inv(s) && CancelledCall(s.control, id)
    ensures var t := Next(s, step);
            && Answers(t.stdout, id) == Answers(s.stdout, id)
            && (CancelledCall(t.control, id) || t.log == s.log + [DidDiscard(id)])
  {
    hide Inv, Partition, ReaderNext, WorkerNext, WriterNext, InterrupterNext, ReaderOk, WorkerOk, WriterOk,
      CancelledCall,
      Answers;
    Facts(s);
    match step
    case ReaderStep(input) => ReaderKeepsCancelled(s, input, id);
    case WorkerStep(timeout) => WorkerKeepsCancelled(s, timeout, id);
    case WriterStep(fails) =>
      WriterKeepsCancelled(s, fails, id);
      var t := WriterNext(s, fails);
      if t.stdout != s.stdout {
        AnswersMore(s.stdout, t.stdout[|s.stdout|], id);
      }
    case InterrupterStep => InterrupterKeepsCancelled(s, id);
  }

  lemma InterrupterKeepsCancelled(s: System, id: Id)
    requires CancelledCall(s.control, id)
    ensures CancelledCall(InterrupterNext(s).control, id) && InterrupterNext(s).stdout == s.stdout
  {
  }

  /**
   A cancelled call is never answered, whatever follows: it stays cancelled until the worker discards it. Up to that
   step `k`, and including it, nothing for it is written.
   */
  lemma {:induction false} CancelledIsDiscarded(steps: seq<Step>, rest: seq<Step>, id: Id) returns (k: nat)
    requires CancelledCall(After(steps).control, id)
    ensures k <= |rest|
    ensures forall i :: 0 <= i <= k ==>
              Answers(Play(After(steps), rest[..i]).stdout, id) == Answers(After(steps).stdout, id)
    ensures forall i :: 0 <= i < k ==> CancelledCall(Play(After(steps), rest[..i]).control, id)
    ensures if CancelledCall(Play(After(steps), rest[..k]).control, id) then k == |rest|
            else k > 0 && Play(After(steps), rest[..k]).log == Play(After(steps), rest[..k - 1]).log + [DidDiscard(id)]
    decreases |rest|
  {
    hide Inv, Next, CancelledCall, Answers, After;
    var s := After(steps);
    if rest == [] {
      k := 0;
      assert rest[..0] == [];
    } else {
      var n := |rest| - 1;
      var front := rest[..n];
      k := CancelledIsDiscarded(steps, front, id);
      forall i | 0 <= i <= n ensures front[..i] == rest[..i] {
      }
      if CancelledCall(Play(s, front[..k]).control, id) {
        assert front[..n] == front && rest[..|rest|] == rest;
        Reachable(steps);
        StaysReachable(s, front);
        StepKeepsCancelled(Play(s, front), rest[n], id);
        k := |rest|;
      }
    }
  }
}
