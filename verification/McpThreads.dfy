/**
 The MCP adapter as a state machine: reader, worker, writer and interrupter interleave at every lock section and
 every queue operation. The invariant says where each outstanding id is, whom interrupts may hit, and that no wakeup
 is lost.
 */
module McpThreads {
  import opened Wrappers
  import opened McpControl

  const QUEUE_CAPACITY := 8

  // ---- Threads ----

  // `Ending` is the final call of `stop`; `Closing` is the return after it, which drops the thread's queue ends.

  datatype Reader =
    | CheckStopped | ReadFrame | Cancelling(id: Id) | Registering(id: Id, tool: bool)
    | Queueing(id: Id) | Sending(id: Id) | Refusing(id: Id) | Emitting(retire: Option<Id>) | EmitFailed
    | Ending | Closing | Gone

  datatype Worker =
    | CheckStopped | Receiving | Beginning(id: Id) | Executing(id: Id) | Emitting(id: Id) | EmitFailed
    | Ending | Closing | Gone

  datatype Writer =
    | Receiving | Checking(retire: Option<Id>) | Writing(retire: Option<Id>, cancelled: bool) | Retiring(id: Id)
    | WriteFailed | Ending | Closing | Gone

  datatype Interrupter = Waiting | Inspecting | Sleeping | Gone

  /** The worker discards, the writer retires; either is recorded whether or not the id was present. */
  datatype Event = DidRegister(id: Id) | DidDiscard(id: Id) | DidRetire(id: Id)

  /**
   The queues, what was dropped from them, and three histories: every reply queued so far, what was written to stdout,
   and what happened to ids.
   */
  datatype System = System(
    control: Control, reader: Reader, worker: Worker, writer: Writer, interrupter: Interrupter,
    jobs: seq<Id>, outputs: seq<Option<Id>>, droppedJobs: seq<Id>, droppedOutputs: seq<Option<Id>>,
    replies: seq<Option<Id>>, stdout: seq<Option<Id>>, log: seq<Event>, panicked: bool)

  const START :=
    System(INITIAL, Reader.CheckStopped, Worker.CheckStopped, Writer.Receiving, Waiting,
           [], [], [], [], [], [], [], false)

  /** What the next frame turns out to be. */
  datatype Input = BadFrame | EndOfInput | Notification | CancelRequest(id: Id) | Request(id: Id, tool: bool)

  datatype Step = ReaderStep(input: Input) | WorkerStep(timeout: bool) | WriterStep(fails: bool) | InterrupterStep

  /** `output.try_send`: fails when the queue is full or the writer is gone. */
  predicate OutputOpen(s: System) {
    |s.outputs| < QUEUE_CAPACITY && !s.writer.Gone?
  }

  predicate JobsOpen(s: System) {
    |s.jobs| < QUEUE_CAPACITY && !s.worker.Gone?
  }

  function Panic(s: System): System {
    s.(panicked := true)
  }

  function ReaderNext(s: System, input: Input): System {
    match s.reader
    case CheckStopped => s.(reader := if s.control.stopped then Reader.Ending else ReadFrame)
    case ReadFrame =>
      s.(reader :=
           match input
           case BadFrame => Reader.Emitting(None)
           case EndOfInput => Reader.Ending
           case Notification => Reader.CheckStopped
           case CancelRequest(id) => Cancelling(id)
           case Request(id, tool) => Registering(id, tool))
    case Cancelling(id) => s.(control := AfterCancel(s.control, id), reader := Reader.CheckStopped)
    case Registering(id, tool) =>
      var (control, r) := AfterRegister(s.control, id);
      if r.Registered? then
        s.(control := control, log := s.log + [DidRegister(id)],
           reader := if tool then Queueing(id) else Reader.Emitting(Some(id)))
      else s.(reader := Reader.Emitting(None))
    case Queueing(id) =>
      if id !in s.control.calls then Panic(s)
      else s.(control := WithStage(s.control, id, Queued), reader := Sending(id))
    case Sending(id) =>
      if JobsOpen(s) then s.(jobs := s.jobs + [id], reader := Reader.CheckStopped) else s.(reader := Refusing(id))
    case Refusing(id) =>
      if id !in s.control.calls then Panic(s)
      else s.(control := WithStage(s.control, id, Finished), reader := Reader.Emitting(Some(id)))
    case Emitting(retire) =>
      if OutputOpen(s) then
        s.(outputs := s.outputs + [retire], replies := s.replies + [retire], reader := Reader.CheckStopped)
      else s.(droppedOutputs := s.droppedOutputs + [retire], reader := Reader.EmitFailed)
    case EmitFailed => s.(control := AfterStop(s.control), reader := Reader.CheckStopped)
    case Ending => s.(control := AfterStop(s.control), reader := Reader.Closing)
    case Closing => s.(reader := Reader.Gone)
    case Gone => s
  }

  function WorkerNext(s: System, timeout: bool): System {
    match s.worker
    case CheckStopped => s.(worker := if s.control.stopped then Worker.Ending else Worker.Receiving)
    case Receiving =>
      if s.jobs != [] && !timeout then s.(jobs := s.jobs[1..], worker := Beginning(s.jobs[0]))
      else if s.jobs == [] && s.reader.Gone? then s.(worker := Worker.Ending)
      else s.(worker := Worker.CheckStopped)
    case Beginning(id) =>
      if s.control.stopped then s.(droppedJobs := s.droppedJobs + [id], worker := Worker.Ending)
      else if id !in s.control.calls then Panic(s)
      else
        var (control, r) := AfterBegin(s.control, id);
        if r.Skipped? then s.(control := control, log := s.log + [DidDiscard(id)], worker := Worker.CheckStopped)
        else s.(control := control, worker := Executing(id))
    case Executing(id) =>
      if id !in s.control.calls then Panic(s)
      else
        var (control, discard) := AfterEnd(s.control, id);
        if discard then s.(control := control, log := s.log + [DidDiscard(id)], worker := Worker.CheckStopped)
        else s.(control := control, worker := Worker.Emitting(id))
    case Emitting(id) =>
      if OutputOpen(s) then
        s.(outputs := s.outputs + [Some(id)], replies := s.replies + [Some(id)], worker := Worker.CheckStopped)
      else s.(droppedOutputs := s.droppedOutputs + [Some(id)], worker := Worker.EmitFailed)
    case EmitFailed => s.(control := AfterStop(s.control), worker := Worker.CheckStopped)
    case Ending => s.(control := AfterStop(s.control), worker := Worker.Closing)
    case Closing => s.(worker := Worker.Gone, droppedJobs := s.droppedJobs + s.jobs, jobs := [])
    case Gone => s
  }

  function WriterNext(s: System, fails: bool): System {
    match s.writer
    case Receiving =>
      if s.outputs != [] then s.(outputs := s.outputs[1..], writer := Checking(s.outputs[0]))
      else if s.reader.Gone? && s.worker.Gone? then s.(writer := Writer.Ending)
      else s
    case Checking(retire) =>
      if s.control.stopped then s.(droppedOutputs := s.droppedOutputs + [retire], writer := Writer.Ending)
      else s.(writer := Writing(retire, retire.Some? && CancelledCall(s.control, retire.value)))
    case Writing(retire, cancelled) =>
      if !cancelled && fails then s.(droppedOutputs := s.droppedOutputs + [retire], writer := WriteFailed)
      else
        s.(stdout := s.stdout + if cancelled then [] else [retire],
           writer := if retire.Some? then Retiring(retire.value) else Writer.Receiving)
    case Retiring(id) =>
      s.(control := Without(s.control, id), log := s.log + [DidRetire(id)], writer := Writer.Receiving)
    case WriteFailed => s.(control := AfterStop(s.control), writer := Writer.Ending)
    case Ending => s.(control := AfterStop(s.control), writer := Writer.Closing)
    case Closing => s.(writer := Writer.Gone, droppedOutputs := s.droppedOutputs + s.outputs, outputs := [])
    case Gone => s
  }

  function InterrupterNext(s: System): System {
    match s.interrupter
    case Waiting => if s.control.wake then s.(control := s.control.(wake := false), interrupter := Inspecting) else s
    case Inspecting =>
      var (control, r) := AfterInspect(s.control);
      s.(control := control,
         interrupter := match r case Return => Interrupter.Gone case Rest => Waiting case Repeat => Sleeping)
    case Sleeping => s.(interrupter := Inspecting)
    case Gone => s
  }

  function Next(s: System, step: Step): System {
    match step
    case ReaderStep(input) => ReaderNext(s, input)
    case WorkerStep(timeout) => WorkerNext(s, timeout)
    case WriterStep(fails) => WriterNext(s, fails)
    case InterrupterStep => InterrupterNext(s)
  }

  /** The state after any interleaving of steps. */
  function After(steps: seq<Step>): System
    decreases |steps|
  {
    if steps == [] then START else Next(After(steps[..|steps| - 1]), steps[|steps| - 1])
  }

  // ---- Where an id is ----

  predicate ReaderHas(r: Reader, id: Id) {
    match r
    case Queueing(i) => i == id
    case Sending(i) => i == id
    case Refusing(i) => i == id
    case Emitting(retire) => retire == Some(id)
    case _ => false
  }

  predicate WorkerHas(w: Worker, id: Id) {
    match w
    case Beginning(i) => i == id
    case Executing(i) => i == id
    case Emitting(i) => i == id
    case _ => false
  }

  predicate WriterHas(w: Writer, id: Id) {
    match w
    case Checking(retire) => retire == Some(id)
    case Writing(retire, _) => retire == Some(id)
    case Retiring(i) => i == id
    case _ => false
  }

  function One(b: bool): nat {
    if b then 1 else 0
  }

  /** How many places hold the id: threads, queues, and what was dropped after a stop. */
  function Places(s: System, id: Id): nat {
    One(ReaderHas(s.reader, id)) + One(WorkerHas(s.worker, id)) + One(WriterHas(s.writer, id))
    + multiset(s.jobs)[id] + multiset(s.outputs)[Some(id)]
    + multiset(s.droppedJobs)[id] + multiset(s.droppedOutputs)[Some(id)]
  }

  /** Every outstanding id is in exactly one place, and no other id is anywhere. */
  ghost predicate Partition(s: System) {
    forall id: Id :: Places(s, id) == One(id in s.control.calls)
  }

  // ---- The rest of the invariant ----

  predicate Uncancelled(c: Control, id: Id, stage: Stage) {
    InStage(c, id, stage) && !c.calls[id].cancelled
  }

  /** On its way to stdout: no longer cancellable, and never cancelled. */
  predicate Awaiting(c: Control, id: Id) {
    Uncancelled(c, id, Immediate) || Uncancelled(c, id, Finished)
  }

  predicate AwaitingOption(c: Control, retire: Option<Id>) {
    retire.Some? ==> Awaiting(c, retire.value)
  }

  predicate ReaderOk(c: Control, r: Reader) {
    match r
    case Queueing(id) => Uncancelled(c, id, Immediate)
    case Sending(id) => Uncancelled(c, id, Queued)
    case Refusing(id) => Uncancelled(c, id, Queued)
    case Emitting(retire) => AwaitingOption(c, retire)
    case _ => true
  }

  predicate WorkerOk(c: Control, w: Worker) {
    && c.active == (if w.Executing? then Some(w.id) else None)
    && match w
       case Beginning(id) => InStage(c, id, Queued)
       case Executing(id) => InStage(c, id, Active)
       case Emitting(id) => Awaiting(c, id)
       case _ => true
  }

  predicate WriterOk(c: Control, w: Writer) {
    match w
    case Checking(retire) => AwaitingOption(c, retire)
    case Writing(retire, cancelled) => AwaitingOption(c, retire) && !cancelled
    case Retiring(id) => Awaiting(c, id)
    case _ => true
  }

  ghost predicate QueuesOk(s: System) {
    && |s.jobs| <= QUEUE_CAPACITY && |s.outputs| <= QUEUE_CAPACITY && |s.control.calls| <= MAXIMUM_OUTSTANDING
    && (forall id :: id in s.jobs ==> InStage(s.control, id, Queued))
    && (forall id :: Some(id) in s.outputs ==> Awaiting(s.control, id))
  }

  /** Whenever the running call has to be interrupted, a token is pending or the interrupter is in its retry loop. */
  predicate WakeOk(s: System) {
    && (NeedsInterrupt(s.control) ==> s.control.wake || s.interrupter.Inspecting? || s.interrupter.Sleeping?)
    && (s.interrupter.Gone? ==> s.control.stopped && s.control.active.None?)
  }

  /** An interrupted call is one that has to be. */
  predicate InterruptOk(c: Control) {
    c.interrupted ==> NeedsInterrupt(c)
  }

  /**
   Something was dropped only because the adapter has stopped, or the thread that dropped it is about to stop it; a
   thread gives up its queues only after the stop.
   */
  predicate DropsOk(s: System) {
    && (s.reader.Closing? || s.worker.Closing? || s.writer.Closing? ==> s.control.stopped)
    && ((s.droppedJobs != [] || s.droppedOutputs != []) ==>
          s.control.stopped || s.reader.EmitFailed? || s.worker.EmitFailed? || s.writer.WriteFailed?)
  }

  ghost predicate Inv(s: System) {
    && Partition(s) && ReaderOk(s.control, s.reader) && WorkerOk(s.control, s.worker) && WriterOk(s.control, s.writer)
    && QueuesOk(s) && WakeOk(s) && InterruptOk(s.control) && DropsOk(s) && !s.panicked
  }
}
