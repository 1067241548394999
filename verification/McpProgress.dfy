/**
 What the MCP adapter does with its inputs, whatever the other threads do meanwhile: cancel requests are acted on,
 requests are queued or answered, jobs begin in order, replies are written in order and each registration is answered
 at most once. `gaps` are the steps the other threads take before each step of the thread a statement is about.
 */
module McpProgress {
  import opened Wrappers
  import opened McpControl
  import opened McpThreads
  import opened McpInvariants

  // ---- Interleavings around one thread ----

  /** The state after some steps. */
  function Play(s: System, steps: seq<Step>): System
    decreases |steps|
  {
    if steps == [] then s else Next(Play(s, steps[..|steps| - 1]), steps[|steps| - 1])
  }

  predicate SameThread(a: Step, b: Step) {
    || (a.ReaderStep? && b.ReaderStep?) || (a.WorkerStep? && b.WorkerStep?)
    || (a.WriterStep? && b.WriterStep?) || (a.InterrupterStep? && b.InterrupterStep?)
  }

  /** Steps of the threads other than the one that takes `own`. */
  predicate Others(own: Step, steps: seq<Step>) {
    forall i :: 0 <= i < |steps| ==> !SameThread(own, steps[i])
  }

  predicate Gaps(own: Step, gaps: seq<seq<Step>>) {
    forall k :: 0 <= k < |gaps| ==> Others(own, gaps[k])
  }

  /** Just before the thread's step number `k`. */
  function Ready(s: System, own: Step, gaps: seq<seq<Step>>, k: nat): System
    requires k < |gaps|
    decreases k, 1
  {
    Play(Acted(s, own, gaps, k), gaps[k])
  }

  /** Just after its first `k` steps. */
  function Acted(s: System, own: Step, gaps: seq<seq<Step>>, k: nat): System
    requires k <= |gaps|
    decreases k, 0
  {
    if k == 0 then s else Next(Ready(s, own, gaps, k - 1), own)
  }

  lemma {:induction false} StaysReachable(s: System, steps: seq<Step>)
    requires Inv(s)
    ensures Inv(Play(s, steps))
    decreases |steps|
  {
    hide Inv, Whole, Next;
    if steps != [] {
      StaysReachable(s, steps[..|steps| - 1]);
      WholeIsInv(Play(s, steps[..|steps| - 1]));
      StepKeeps(Play(s, steps[..|steps| - 1]), steps[|steps| - 1]);
      WholeIsInv(Play(s, steps));
    }
  }

  /** No thread moves another thread's program counter; only the worker changes which call is active. */
  lemma OwnCounter(s: System, step: Step)
    ensures !step.ReaderStep? ==> Next(s, step).reader == s.reader
    ensures !step.WorkerStep? ==> Next(s, step).worker == s.worker
    ensures !step.WriterStep? ==> Next(s, step).writer == s.writer
    ensures !step.InterrupterStep? ==> Next(s, step).interrupter == s.interrupter
  {
    hide AfterStop, AfterCancel, AfterRegister, AfterBegin, AfterEnd, AfterInspect, WithStage, Without;
  }

  lemma {:induction false} Waits(s: System, own: Step, steps: seq<Step>)
    requires Others(own, steps)
    ensures own.ReaderStep? ==> Play(s, steps).reader == s.reader
    ensures own.WorkerStep? ==> Play(s, steps).worker == s.worker
    ensures own.WriterStep? ==> Play(s, steps).writer == s.writer
    ensures own.InterrupterStep? ==> Play(s, steps).interrupter == s.interrupter
    decreases |steps|
  {
    hide Next;
    if steps != [] {
      Waits(s, own, steps[..|steps| - 1]);
      OwnCounter(Play(s, steps[..|steps| - 1]), steps[|steps| - 1]);
    }
  }

  /** Every state in between is reachable, and the thread is where it was. */
  lemma {:induction false} InBetween(s: System, own: Step, gaps: seq<seq<Step>>, k: nat)
    requires Inv(s) && Gaps(own, gaps) && k < |gaps|
    ensures Inv(Ready(s, own, gaps, k)) && Inv(Acted(s, own, gaps, k))
    ensures own.ReaderStep? ==> Ready(s, own, gaps, k).reader == Acted(s, own, gaps, k).reader
    ensures own.WorkerStep? ==> Ready(s, own, gaps, k).worker == Acted(s, own, gaps, k).worker
    ensures own.WriterStep? ==> Ready(s, own, gaps, k).writer == Acted(s, own, gaps, k).writer
    ensures own.InterrupterStep? ==> Ready(s, own, gaps, k).interrupter == Acted(s, own, gaps, k).interrupter
    decreases k
  {
    hide Inv, Whole, Next, Play;
    if k > 0 {
      InBetween(s, own, gaps, k - 1);
      WholeIsInv(Ready(s, own, gaps, k - 1));
      StepKeeps(Ready(s, own, gaps, k - 1), own);
      WholeIsInv(Acted(s, own, gaps, k));
    }
    StaysReachable(Acted(s, own, gaps, k), gaps[k]);
    Waits(Acted(s, own, gaps, k), own, gaps[k]);
  }

  // ---- The reader ----

  /** The reader or worker is at the head of its loop. */
  predicate AtLoop(own: Step, s: System) {
    (own.ReaderStep? ==> s.reader.CheckStopped?) && (own.WorkerStep? ==> s.worker.CheckStopped?)
  }

  /** Step `k` queues the reply, or, when the queue is full or its reader gone, drops it and stops next. */
  predicate Replies(s: System, own: Step, gaps: seq<seq<Step>>, k: nat, retire: Option<Id>)
    requires k + 1 < |gaps|
  {
    var a, b, c := Ready(s, own, gaps, k), Acted(s, own, gaps, k + 1), Acted(s, own, gaps, k + 2);
    if |a.outputs| < 8 && !a.writer.Gone? then
      && b.outputs == a.outputs + [retire] && b.replies == a.replies + [retire] && b.control == a.control
      && AtLoop(own, b)
    else b.droppedOutputs == a.droppedOutputs + [retire] && c.control.stopped && AtLoop(own, c)
  }

  /** A reader that waits for a frame, and what it has just read. */
  predicate HasRead(s: System, t: System, input: Input) {
    s.reader.ReadFrame? && t == Next(s, ReaderStep(input))
  }

  lemma {:induction false} AfterRead(steps: seq<Step>, t: System, input: Input)
    requires HasRead(After(steps), t, input)
    ensures Inv(t)
    ensures t.control == After(steps).control && t.outputs == After(steps).outputs && t.jobs == After(steps).jobs
    ensures match input
            case BadFrame => t.reader == Reader.Emitting(None)
            case EndOfInput => t.reader.Ending?
            case Notification => t.reader.CheckStopped?
            case CancelRequest(id) => t.reader == Cancelling(id)
            case Request(id, tool) => t.reader == Registering(id, tool)
  {
    hide Inv, Whole;
    ReachableWhole(steps);
    StepKeeps(After(steps), ReaderStep(input));
    WholeIsInv(t);
  }

  lemma CancelSection(a: System, id: Id, any: Input)
    requires a.reader == Cancelling(id) && WorkerOk(a.control, a.worker)
    ensures var b := Next(a, ReaderStep(any));
            && (if Cancellable(a.control, id) then
                  && CancelledCall(b.control, id)
                  && b.control.hits == a.control.hits + (if a.control.active == Some(id) then [Some(id)] else [])
                  && (a.control.active == Some(id) ==> b.control.wake)
                else b.control == a.control)
            && b.outputs == a.outputs && b.jobs == a.jobs && b.reader.CheckStopped?
  {
  }

  /**
   A cancel request is acted on at the reader's next step: a call that then waits or runs is cancelled, one that runs
   is interrupted and the interrupter is woken; anything else is left alone.
   */
  lemma {:induction false} CancelActs(steps: seq<Step>, id: Id, t: System, gaps: seq<seq<Step>>, any: Input)
    requires HasRead(After(steps), t, CancelRequest(id)) && Gaps(ReaderStep(any), gaps) && |gaps| == 1
    ensures var a, b := Ready(t, ReaderStep(any), gaps, 0), Acted(t, ReaderStep(any), gaps, 1);
            && (if Cancellable(a.control, id) then
                  && CancelledCall(b.control, id)
                  && b.control.hits == a.control.hits + (if a.control.active == Some(id) then [Some(id)] else [])
                  && (a.control.active == Some(id) ==> b.control.wake)
                else b.control == a.control)
            && b.outputs == a.outputs && b.jobs == a.jobs && b.reader.CheckStopped?
  {
    hide Inv, Play, Next, HasRead, Partition, WorkerOk;
    AfterRead(steps, t, CancelRequest(id));
    InBetween(t, ReaderStep(any), gaps, 0);
    Facts(Ready(t, ReaderStep(any), gaps, 0));
    CancelSection(Ready(t, ReaderStep(any), gaps, 0), id, any);
  }

  lemma RegisterSection(a: System, id: Id, tool: bool, any: Input)
    requires a.reader == Registering(id, tool)
    ensures var b := Next(a, ReaderStep(any));
            if id in a.control.calls || |a.control.calls| >= 32 then
              b.control == a.control && b.log == a.log && b.reader == Reader.Emitting(None)
            else
              && b.log == a.log + [DidRegister(id)] && id in b.control.calls
              && b.reader == if tool then Queueing(id) else Reader.Emitting(Some(id))
  {
  }

  lemma QueueSections(a: System, id: Id, any: Input)
    requires ReaderOk(a.control, a.reader)
    ensures a.reader == Queueing(id) ==> Next(a, ReaderStep(any)).reader == Sending(id)
    ensures a.reader == Refusing(id) ==> Next(a, ReaderStep(any)).reader == Reader.Emitting(Some(id))
    ensures a.reader == Sending(id) ==>
              var b := Next(a, ReaderStep(any));
              if |a.jobs| < 8 && !a.worker.Gone? then
                b.jobs == a.jobs + [id] && InStage(b.control, id, Queued) && b.reader.CheckStopped?
              else b.reader == Refusing(id)
  {
  }

  lemma EmitSections(a: System, retire: Option<Id>, any: Input)
    ensures a.reader == Reader.Emitting(retire) ==>
              var b := Next(a, ReaderStep(any));
              if |a.outputs| < 8 && !a.writer.Gone? then
                && b.outputs == a.outputs + [retire] && b.replies == a.replies + [retire] && b.control == a.control
                && b.reader.CheckStopped?
              else b.droppedOutputs == a.droppedOutputs + [retire] && b.reader.EmitFailed?
    ensures a.reader.EmitFailed? ==>
              Next(a, ReaderStep(any)).control.stopped && Next(a, ReaderStep(any)).reader.CheckStopped?
  {
  }

  lemma {:induction false} EmitsReply(
    t: System, gaps: seq<seq<Step>>, any: Input, k: nat, retire: Option<Id>)
    requires Inv(t) && Gaps(ReaderStep(any), gaps) && k + 1 < |gaps|
    requires Acted(t, ReaderStep(any), gaps, k).reader == Reader.Emitting(retire)
    ensures Replies(t, ReaderStep(any), gaps, k, retire)
  {
    hide Inv, Play, Next;
    var own := ReaderStep(any);
    InBetween(t, own, gaps, k);
    EmitSections(Ready(t, own, gaps, k), retire, any);
    InBetween(t, own, gaps, k + 1);
    EmitSections(Ready(t, own, gaps, k + 1), retire, any);
  }

  /**
   A request is served within the reader's next five steps. A duplicate id or one too many is answered at once and
   registers nothing; another request is registered, and a tool call is then queued as a job, or answered if the queue
   has no room; any other request is answered.
   */
  lemma {:induction false} RequestServed(
    steps: seq<Step>, id: Id, tool: bool, t: System, gaps: seq<seq<Step>>, any: Input)
    requires HasRead(After(steps), t, Request(id, tool)) && Gaps(ReaderStep(any), gaps) && |gaps| == 6
    ensures var own := ReaderStep(any);
            var a, b := Ready(t, own, gaps, 0), Acted(t, own, gaps, 1);
            if id in a.control.calls || |a.control.calls| >= 32 then
              b.control == a.control && b.log == a.log && Replies(t, own, gaps, 1, None)
            else
              && b.log == a.log + [DidRegister(id)] && id in b.control.calls
              && if !tool then Replies(t, own, gaps, 1, Some(id))
                 else if |Ready(t, own, gaps, 2).jobs| < 8 && !Ready(t, own, gaps, 2).worker.Gone? then
                   && Acted(t, own, gaps, 3).jobs == Ready(t, own, gaps, 2).jobs + [id]
                   && InStage(Acted(t, own, gaps, 3).control, id, Queued)
                   && Acted(t, own, gaps, 3).reader.CheckStopped?
                 else Replies(t, own, gaps, 4, Some(id))
  {
    hide Inv, Play, Next, HasRead, Partition, ReaderOk, Replies;
    var own := ReaderStep(any);
    AfterRead(steps, t, Request(id, tool));
    InBetween(t, own, gaps, 0);
    RegisterSection(Ready(t, own, gaps, 0), id, tool, any);
    if Acted(t, own, gaps, 1).reader == Queueing(id) {
      ToolQueued(t, gaps, any, id);
    } else {
      EmitsReply(t, gaps, any, 1, if id in Ready(t, own, gaps, 0).control.calls
                                     || |Ready(t, own, gaps, 0).control.calls| >= 32 then None else Some(id));
    }
  }

  lemma {:induction false} ToolQueued(t: System, gaps: seq<seq<Step>>, any: Input, id: Id)
    requires Inv(t) && Gaps(ReaderStep(any), gaps) && |gaps| == 6
    requires Acted(t, ReaderStep(any), gaps, 1).reader == Queueing(id)
    ensures var own := ReaderStep(any);
            if |Ready(t, own, gaps, 2).jobs| < 8 && !Ready(t, own, gaps, 2).worker.Gone? then
              && Acted(t, own, gaps, 3).jobs == Ready(t, own, gaps, 2).jobs + [id]
              && InStage(Acted(t, own, gaps, 3).control, id, Queued)
              && Acted(t, own, gaps, 3).reader.CheckStopped?
            else Replies(t, own, gaps, 4, Some(id))
  {
    hide Inv, Play, Next, Partition, ReaderOk, Replies;
    var own := ReaderStep(any);
    InBetween(t, own, gaps, 1);
    Facts(Ready(t, own, gaps, 1));
    QueueSections(Ready(t, own, gaps, 1), id, any);
    InBetween(t, own, gaps, 2);
    Facts(Ready(t, own, gaps, 2));
    QueueSections(Ready(t, own, gaps, 2), id, any);
    if Acted(t, own, gaps, 3).reader == Refusing(id) {
      InBetween(t, own, gaps, 3);
      Facts(Ready(t, own, gaps, 3));
      QueueSections(Ready(t, own, gaps, 3), id, any);
      EmitsReply(t, gaps, any, 4, Some(id));
    }
  }

  /** A frame that is too long or no valid message is answered without an id. */
  lemma {:induction false} BadFrameAnswered(steps: seq<Step>, t: System, gaps: seq<seq<Step>>, any: Input)
    requires HasRead(After(steps), t, BadFrame) && Gaps(ReaderStep(any), gaps) && |gaps| == 2
    ensures Replies(t, ReaderStep(any), gaps, 0, None)
  {
    hide Inv, Play, Next, HasRead;
    AfterRead(steps, t, BadFrame);
    EmitsReply(t, gaps, any, 0, None);
  }

  lemma EndSections(a: System, any: Input)
    ensures a.reader.Ending? ==> Next(a, ReaderStep(any)).control.stopped && Next(a, ReaderStep(any)).reader.Closing?
    ensures a.reader.Closing? ==> Next(a, ReaderStep(any)).reader.Gone?
    ensures a.reader.CheckStopped? ==>
              var b := Next(a, ReaderStep(any));
              && b.control == a.control && b.outputs == a.outputs && b.jobs == a.jobs
              && if a.control.stopped then b.reader.Ending? else b.reader.ReadFrame?
  {
  }

  /** The end of input stops the adapter, and the reader is then gone. */
  lemma {:induction false} EndOfInputStops(steps: seq<Step>, t: System, gaps: seq<seq<Step>>, any: Input)
    requires HasRead(After(steps), t, EndOfInput) && Gaps(ReaderStep(any), gaps) && |gaps| == 2
    ensures Acted(t, ReaderStep(any), gaps, 1).control.stopped && Acted(t, ReaderStep(any), gaps, 2).reader.Gone?
  {
    hide Inv, Play, Next, HasRead;
    AfterRead(steps, t, EndOfInput);
    InBetween(t, ReaderStep(any), gaps, 0);
    EndSections(Ready(t, ReaderStep(any), gaps, 0), any);
    InBetween(t, ReaderStep(any), gaps, 1);
    EndSections(Ready(t, ReaderStep(any), gaps, 1), any);
  }

  /** Any other notification changes nothing. */
  lemma {:induction false} NotificationIgnored(steps: seq<Step>, t: System)
    requires HasRead(After(steps), t, Notification)
    ensures t.control == After(steps).control && t.outputs == After(steps).outputs && t.jobs == After(steps).jobs
    ensures t.reader.CheckStopped?
  {
    hide Inv, Next, HasRead;
    AfterRead(steps, t, Notification);
  }

  /** Back at its loop the reader waits for the next frame, or after a stop is gone within three steps. */
  lemma {:induction false} ReaderLoops(steps: seq<Step>, gaps: seq<seq<Step>>, any: Input)
    requires After(steps).reader.CheckStopped? && Gaps(ReaderStep(any), gaps) && |gaps| == 3
    ensures var own := ReaderStep(any);
            if Ready(After(steps), own, gaps, 0).control.stopped then Acted(After(steps), own, gaps, 3).reader.Gone?
            else Acted(After(steps), own, gaps, 1).reader.ReadFrame?
  {
    hide Inv, Play, Next;
    var s, own := After(steps), ReaderStep(any);
    Reachable(steps);
    InBetween(s, own, gaps, 0);
    EndSections(Ready(s, own, gaps, 0), any);
    InBetween(s, own, gaps, 1);
    EndSections(Ready(s, own, gaps, 1), any);
    InBetween(s, own, gaps, 2);
    EndSections(Ready(s, own, gaps, 2), any);
  }

  // ---- The worker ----

  lemma TakeSection(a: System)
    requires a.worker.Receiving?
    ensures var b := Next(a, WorkerStep(false));
            && b.control == a.control && b.outputs == a.outputs
            && if a.jobs != [] then b.jobs == a.jobs[1..] && b.worker == Beginning(a.jobs[0])
               else b.jobs == [] && if a.reader.Gone? then b.worker.Ending? else b.worker.CheckStopped?
  {
  }

  lemma BeginSection(a: System, id: Id)
    requires a.worker == Beginning(id) && WorkerOk(a.control, a.worker)
    ensures var b := Next(a, WorkerStep(false));
            && b.outputs == a.outputs
            && if a.control.stopped then b.droppedJobs == a.droppedJobs + [id] && b.worker.Ending?
               else if CancelledCall(a.control, id) then
                 b.log == a.log + [DidDiscard(id)] && id !in b.control.calls && b.worker.CheckStopped?
               else b.worker == Executing(id) && b.control.active == Some(id) && InStage(b.control, id, Active)
  {
  }

  /** Jobs are taken in order, and one taken is at the next step dropped, discarded or run. */
  lemma {:induction false} JobBegins(steps: seq<Step>, gaps: seq<seq<Step>>)
    requires After(steps).worker.Receiving? && Gaps(WorkerStep(false), gaps) && |gaps| == 2
    ensures var s, own := After(steps), WorkerStep(false);
            var a, b, c := Ready(s, own, gaps, 0), Ready(s, own, gaps, 1), Acted(s, own, gaps, 2);
            a.jobs != [] ==>
              var id := a.jobs[0];
              && Acted(s, own, gaps, 1).jobs == a.jobs[1..]
              && c.outputs == b.outputs
              && if b.control.stopped then c.droppedJobs == b.droppedJobs + [id]
                 else if CancelledCall(b.control, id) then c.log == b.log + [DidDiscard(id)] && id !in c.control.calls
                 else c.worker == Executing(id) && c.control.active == Some(id) && InStage(c.control, id, Active)
  {
    hide Inv, Play, Next, Partition, WorkerOk;
    var s, own := After(steps), WorkerStep(false);
    Reachable(steps);
    InBetween(s, own, gaps, 0);
    TakeSection(Ready(s, own, gaps, 0));
    InBetween(s, own, gaps, 1);
    Facts(Ready(s, own, gaps, 1));
    if Ready(s, own, gaps, 0).jobs != [] {
      BeginSection(Ready(s, own, gaps, 1), Ready(s, own, gaps, 0).jobs[0]);
    }
  }

  lemma EndSection(a: System, id: Id)
    requires a.worker == Executing(id) && WorkerOk(a.control, a.worker)
    ensures var b := Next(a, WorkerStep(false));
            && b.outputs == a.outputs
            && if NeedsInterrupt(a.control) then
                 b.log == a.log + [DidDiscard(id)] && id !in b.control.calls && b.worker.CheckStopped?
               else b.worker == Worker.Emitting(id) && id in b.control.calls && b.control.active.None?
  {
  }

  lemma WorkerEmitSections(a: System, id: Id)
    ensures a.worker == Worker.Emitting(id) ==>
              var b := Next(a, WorkerStep(false));
              if |a.outputs| < 8 && !a.writer.Gone? then
                && b.outputs == a.outputs + [Some(id)] && b.replies == a.replies + [Some(id)] && b.control == a.control
                && b.worker.CheckStopped?
              else b.droppedOutputs == a.droppedOutputs + [Some(id)] && b.worker.EmitFailed?
    ensures a.worker.EmitFailed? ==>
              Next(a, WorkerStep(false)).control.stopped && Next(a, WorkerStep(false)).worker.CheckStopped?
  {
  }

  /** A run ends in a reply, unless its call had to be interrupted: then it is discarded and nothing is sent. */
  lemma {:induction false} RunEnds(steps: seq<Step>, gaps: seq<seq<Step>>, id: Id)
    requires After(steps).worker == Executing(id) && Gaps(WorkerStep(false), gaps) && |gaps| == 3
    ensures var s, own := After(steps), WorkerStep(false);
            var a, b := Ready(s, own, gaps, 0), Acted(s, own, gaps, 1);
            && b.outputs == a.outputs
            && if NeedsInterrupt(a.control) then b.log == a.log + [DidDiscard(id)] && id !in b.control.calls
               else Replies(s, own, gaps, 1, Some(id))
  {
    hide Inv, Play, Next, Partition, WorkerOk;
    var s, own := After(steps), WorkerStep(false);
    Reachable(steps);
    InBetween(s, own, gaps, 0);
    Facts(Ready(s, own, gaps, 0));
    EndSection(Ready(s, own, gaps, 0), id);
    InBetween(s, own, gaps, 1);
    WorkerEmitSections(Ready(s, own, gaps, 1), id);
    InBetween(s, own, gaps, 2);
    WorkerEmitSections(Ready(s, own, gaps, 2), id);
  }

  lemma WorkerEndSections(a: System)
    ensures a.worker.Ending? ==>
              Next(a, WorkerStep(false)).control.stopped && Next(a, WorkerStep(false)).worker.Closing?
    ensures a.worker.Closing? ==> Next(a, WorkerStep(false)).worker.Gone?
    ensures a.worker.CheckStopped? ==>
              var b := Next(a, WorkerStep(false));
              b.jobs == a.jobs && if a.control.stopped then b.worker.Ending? else b.worker.Receiving?
  {
  }

  /** Back at its loop the worker looks for the next job, or after a stop is gone within three steps. */
  lemma {:induction false} WorkerLoops(steps: seq<Step>, gaps: seq<seq<Step>>)
    requires After(steps).worker.CheckStopped? && Gaps(WorkerStep(false), gaps) && |gaps| == 3
    ensures var s, own := After(steps), WorkerStep(false);
            if Ready(s, own, gaps, 0).control.stopped then Acted(s, own, gaps, 3).worker.Gone?
            else Acted(s, own, gaps, 1).worker.Receiving?
  {
    hide Inv, Play, Next;
    var s, own := After(steps), WorkerStep(false);
    Reachable(steps);
    InBetween(s, own, gaps, 0);
    WorkerEndSections(Ready(s, own, gaps, 0));
    InBetween(s, own, gaps, 1);
    WorkerEndSections(Ready(s, own, gaps, 1));
    InBetween(s, own, gaps, 2);
    WorkerEndSections(Ready(s, own, gaps, 2));
  }

  // ---- The writer ----

  lemma FetchSection(a: System, fails: bool)
    requires a.writer.Receiving?
    ensures var b := Next(a, WriterStep(fails));
            && b.stdout == a.stdout && b.control == a.control
            && if a.outputs != [] then b.outputs == a.outputs[1..] && b.writer == Checking(a.outputs[0])
               else
                 && b.outputs == []
                 && if a.reader.Gone? && a.worker.Gone? then b.writer.Ending? else b.writer.Receiving?
  {
  }

  lemma CheckSection(a: System, fails: bool, retire: Option<Id>)
    requires a.writer == Checking(retire) && WriterOk(a.control, a.writer)
    ensures var b := Next(a, WriterStep(fails));
            && b.stdout == a.stdout
            && if a.control.stopped then b.droppedOutputs == a.droppedOutputs + [retire] && b.writer.Ending?
               else b.writer == Writing(retire, false)
  {
  }

  lemma WriteSections(a: System, fails: bool, retire: Option<Id>)
    ensures a.writer == Writing(retire, false) ==>
              var b := Next(a, WriterStep(fails));
              if fails then
                b.stdout == a.stdout && b.droppedOutputs == a.droppedOutputs + [retire] && b.writer.WriteFailed?
              else
                && b.stdout == a.stdout + [retire]
                && b.writer == if retire.Some? then Retiring(retire.value) else Writer.Receiving
    ensures a.writer.WriteFailed? ==> Next(a, WriterStep(fails)).control.stopped
    ensures retire.Some? && a.writer == Retiring(retire.value) ==>
              var b := Next(a, WriterStep(fails));
              b.log == a.log + [DidRetire(retire.value)] && retire.value !in b.control.calls && b.writer.Receiving?
  {
  }

  /**
   Replies are fetched in order. One fetched is dropped if the adapter has stopped; otherwise it is written, and its
   id, if it has one, is no longer outstanding after the next step; a failing write stops the adapter.
   */
  lemma {:induction false} ReplyWritten(steps: seq<Step>, gaps: seq<seq<Step>>, fails: bool)
    requires After(steps).writer.Receiving? && Gaps(WriterStep(fails), gaps) && |gaps| == 4
    ensures var s, own := After(steps), WriterStep(fails);
            var a := Ready(s, own, gaps, 0);
            a.outputs != [] ==>
              var retire := a.outputs[0];
              var b, c, d := Ready(s, own, gaps, 1), Ready(s, own, gaps, 2), Ready(s, own, gaps, 3);
              && Acted(s, own, gaps, 1).outputs == a.outputs[1..] && Acted(s, own, gaps, 2).stdout == b.stdout
              && if b.control.stopped then Acted(s, own, gaps, 2).droppedOutputs == b.droppedOutputs + [retire]
                 else if fails then
                   && Acted(s, own, gaps, 3).stdout == c.stdout
                   && Acted(s, own, gaps, 3).droppedOutputs == c.droppedOutputs + [retire]
                   && Acted(s, own, gaps, 4).control.stopped
                 else
                   && Acted(s, own, gaps, 3).stdout == c.stdout + [retire]
                   && if retire.None? then Acted(s, own, gaps, 3).writer.Receiving?
                      else
                        && Acted(s, own, gaps, 4).log == d.log + [DidRetire(retire.value)]
                        && retire.value !in Acted(s, own, gaps, 4).control.calls
                        && Acted(s, own, gaps, 4).writer.Receiving?
  {
    hide Inv, Play, Next, Partition, WriterOk;
    var s, own := After(steps), WriterStep(fails);
    Reachable(steps);
    InBetween(s, own, gaps, 0);
    FetchSection(Ready(s, own, gaps, 0), fails);
    if Ready(s, own, gaps, 0).outputs != [] {
      var retire := Ready(s, own, gaps, 0).outputs[0];
      InBetween(s, own, gaps, 1);
      Facts(Ready(s, own, gaps, 1));
      CheckSection(Ready(s, own, gaps, 1), fails, retire);
      InBetween(s, own, gaps, 2);
      WriteSections(Ready(s, own, gaps, 2), fails, retire);
      InBetween(s, own, gaps, 3);
      WriteSections(Ready(s, own, gaps, 3), fails, retire);
    }
  }

  // ---- The interrupter ----

  lemma InterrupterSections(a: System)
    requires WakeOk(a) && NeedsInterrupt(a.control)
    ensures var b := Next(a, InterrupterStep);
            if a.interrupter.Inspecting? then b.control.hits == a.control.hits + [a.control.active]
            else b.interrupter.Inspecting? && b.control.hits == a.control.hits
  {
  }

  /**
   The interrupter uses a wake-up once: it is spent when the interrupter leaves its wait, and only an inspection that
   finds a call to interrupt interrupts anything.
   */
  lemma WakeSpent(steps: seq<Step>)
    ensures var a, b := After(steps), After(steps + [InterrupterStep]);
            && (a.interrupter.Waiting? ==> b.control == a.control.(wake := false))
            && (a.interrupter.Waiting? ==> (b.interrupter.Inspecting? <==> a.control.wake))
            && (b.control.hits != a.control.hits ==> a.interrupter.Inspecting? && NeedsInterrupt(a.control))
            && (a.interrupter.Inspecting? && !NeedsInterrupt(a.control) ==>
                  b.control == a.control
                  && (b.interrupter.Gone? <==> a.control.stopped && a.control.active.None?)
                  && (b.interrupter.Waiting? <==> !b.interrupter.Gone?))
  {
    assert (steps + [InterrupterStep])[..|steps|] == steps;
  }

  /**
   No interrupt is missed: if a call has to be interrupted before the interrupter's next two steps, one of the two
   interrupts the call that is active then.
   */
  lemma {:induction false} InterruptFollows(steps: seq<Step>, gaps: seq<seq<Step>>)
    requires Gaps(InterrupterStep, gaps) && |gaps| == 2
    requires NeedsInterrupt(Ready(After(steps), InterrupterStep, gaps, 0).control)
    requires NeedsInterrupt(Ready(After(steps), InterrupterStep, gaps, 1).control)
    ensures var s, own := After(steps), InterrupterStep;
            var a, b := Ready(s, own, gaps, 0), Ready(s, own, gaps, 1);
            || Acted(s, own, gaps, 1).control.hits == a.control.hits + [a.control.active]
            || Acted(s, own, gaps, 2).control.hits == b.control.hits + [b.control.active]
  {
    hide Inv, Play, Next, Partition, WakeOk, NeedsInterrupt;
    var s, own := After(steps), InterrupterStep;
    Reachable(steps);
    InBetween(s, own, gaps, 0);
    Facts(Ready(s, own, gaps, 0));
    InterrupterSections(Ready(s, own, gaps, 0));
    InBetween(s, own, gaps, 1);
    Facts(Ready(s, own, gaps, 1));
    InterrupterSections(Ready(s, own, gaps, 1));
  }
}
