/** Every interleaving keeps the MCP invariant, and what follows from it. */
module McpInvariants {
  import opened Wrappers
  import opened McpControl
  import opened McpThreads

  // ---- Counting places ----

  lemma Pushed<T>(q: seq<T>, x: T, y: T)
    ensures multiset(q + [x])[y] == multiset(q)[y] + One(x == y)
  {
  }

  lemma Popped<T>(q: seq<T>, y: T)
    requires q != []
    ensures multiset(q[1..])[y] + One(q[0] == y) == multiset(q)[y]
  {
    assert q == [q[0]] + q[1..];
  }

  lemma Appended<T>(p: seq<T>, q: seq<T>, y: T)
    ensures multiset(p + q)[y] == multiset(p)[y] + multiset(q)[y]
  {
  }

  /** The id is counted as often as it is outstanding. */
  predicate Placed(s: System, id: Id) {
    Places(s, id) == One(id in s.control.calls)
  }

  /** The part of the count the queues and the dropped outputs and jobs make. */
  function Stored(s: System, id: Id): nat {
    multiset(s.jobs)[id] + multiset(s.outputs)[Some(id)]
    + multiset(s.droppedJobs)[id] + multiset(s.droppedOutputs)[Some(id)]
  }

  function Held(s: System, id: Id): nat {
    One(ReaderHas(s.reader, id)) + One(WorkerHas(s.worker, id)) + One(WriterHas(s.writer, id))
  }

  lemma PlacesAre(s: System, id: Id)
    ensures Places(s, id) == Held(s, id) + Stored(s, id)
  {
  }

  lemma OutputStored(s: System, retire: Option<Id>, id: Id)
    ensures Stored(s.(outputs := s.outputs + [retire]), id) == Stored(s, id) + One(retire == Some(id))
    ensures Stored(s.(droppedOutputs := s.droppedOutputs + [retire]), id) == Stored(s, id) + One(retire == Some(id))
  {
    Pushed(s.outputs, retire, Some(id));
    Pushed(s.droppedOutputs, retire, Some(id));
  }

  lemma JobStored(s: System, job: Id, id: Id)
    ensures Stored(s.(jobs := s.jobs + [job]), id) == Stored(s, id) + One(job == id)
    ensures Stored(s.(droppedJobs := s.droppedJobs + [job]), id) == Stored(s, id) + One(job == id)
  {
    Pushed(s.jobs, job, id);
    Pushed(s.droppedJobs, job, id);
  }

  lemma HeadTaken(s: System, id: Id)
    ensures s.jobs != [] ==> Stored(s.(jobs := s.jobs[1..]), id) + One(s.jobs[0] == id) == Stored(s, id)
    ensures s.outputs != [] ==>
              Stored(s.(outputs := s.outputs[1..]), id) + One(s.outputs[0] == Some(id)) == Stored(s, id)
  {
    if s.jobs != [] { Popped(s.jobs, id); }
    if s.outputs != [] { Popped(s.outputs, Some(id)); }
  }

  lemma QueuesDropped(s: System, id: Id)
    ensures Stored(s.(droppedJobs := s.droppedJobs + s.jobs, jobs := []), id) == Stored(s, id)
    ensures Stored(s.(droppedOutputs := s.droppedOutputs + s.outputs, outputs := []), id) == Stored(s, id)
  {
    Appended(s.droppedJobs, s.jobs, id);
    Appended(s.droppedOutputs, s.outputs, Some(id));
  }

  /** Only queues and drops matter to what is stored. */
  lemma StoredSame(s: System, t: System, id: Id)
    requires t.jobs == s.jobs && t.outputs == s.outputs
    requires t.droppedJobs == s.droppedJobs && t.droppedOutputs == s.droppedOutputs
    ensures Stored(t, id) == Stored(s, id)
  {
  }

  /** A step that moves nothing of the id's keeps its count. */
  lemma KeepsPlace(s: System, t: System, id: Id)
    requires Placed(s, id) && (id in t.control.calls <==> id in s.control.calls)
    requires ReaderHas(t.reader, id) == ReaderHas(s.reader, id) && WorkerHas(t.worker, id) == WorkerHas(s.worker, id)
    requires WriterHas(t.writer, id) == WriterHas(s.writer, id) && Stored(t, id) == Stored(s, id)
    ensures Placed(t, id)
  {
    hide Stored, Places, ReaderHas, WorkerHas, WriterHas;
    PlacesAre(s, id);
    PlacesAre(t, id);
  }

  lemma ReaderSends(s: System, i: Id, id: Id)
    requires Placed(s, id) && s.reader == Sending(i)
    ensures Placed(ReaderNext(s, Notification), id)
  {
    hide Stored, Places;
    var t := ReaderNext(s, Notification);
    PlacesAre(s, id);
    PlacesAre(t, id);
    JobStored(s, i, id);
    StoredSame(if JobsOpen(s) then s.(jobs := s.jobs + [i]) else s, t, id);
  }

  lemma ReaderEmits(s: System, retire: Option<Id>, id: Id)
    requires Placed(s, id) && s.reader == Reader.Emitting(retire)
    ensures Placed(ReaderNext(s, Notification), id)
  {
    hide Stored, Places;
    var t := ReaderNext(s, Notification);
    PlacesAre(s, id);
    PlacesAre(t, id);
    OutputStored(s, retire, id);
    StoredSame(if OutputOpen(s) then s.(outputs := s.outputs + [retire])
               else s.(droppedOutputs := s.droppedOutputs + [retire]), t, id);
  }

  lemma {:induction false} ReaderPlaces(s: System, input: Input, id: Id)
    requires Placed(s, id)
    ensures Placed(ReaderNext(s, input), id)
  {
    hide Stored, AfterStop, AfterCancel, Places, Placed;
    match s.reader
    case Sending(i) => ReaderSends(s, i, id);
    case Emitting(retire) => ReaderEmits(s, retire, id);
    case Registering(i, tool) => ReaderRegisters(s, i, tool, id);
    case Cancelling(i) => ReaderCancels(s, i, id);
    case Queueing(i) => if i in s.control.calls { ReaderRestages(s, i, id); } else { PanicPlaces(s, id); }
    case Refusing(i) => if i in s.control.calls { ReaderRestages(s, i, id); } else { PanicPlaces(s, id); }
    case EmitFailed => ReaderStops(s, id);
    case Ending => ReaderStops(s, id);
    case _ => ReaderMoves(s, input, id);
  }

  lemma PanicPlaces(s: System, id: Id)
    requires Placed(s, id)
    ensures Placed(Panic(s), id)
  {
  }

  lemma ReaderRegisters(s: System, i: Id, tool: bool, id: Id)
    requires Placed(s, id) && s.reader == Registering(i, tool)
    ensures Placed(ReaderNext(s, Notification), id)
  {
    hide Stored, Places, WorkerHas, WriterHas;
    var t := ReaderNext(s, Notification);
    PlacesAre(s, id);
    PlacesAre(t, id);
    StoredSame(s, t, id);
  }

  lemma {:induction false} ReaderCancels(s: System, i: Id, id: Id)
    requires Placed(s, id) && s.reader == Cancelling(i)
    ensures Placed(ReaderNext(s, Notification), id)
  {
    hide Stored, AfterCancel, Places, Placed, WorkerHas, WriterHas;
    var t := ReaderNext(s, Notification);
    CancelCalls(s.control, i);
    StoredSame(s, t, id);
    KeepsPlace(s, t, id);
  }

  lemma {:induction false} ReaderRestages(s: System, i: Id, id: Id)
    requires Placed(s, id) && (s.reader == Queueing(i) || s.reader == Refusing(i)) && i in s.control.calls
    ensures Placed(ReaderNext(s, Notification), id)
  {
    hide Stored, WithStage, Places, Placed, WorkerHas, WriterHas;
    var t := ReaderNext(s, Notification);
    StageCalls(s.control, i, if s.reader.Queueing? then Queued else Finished);
    StoredSame(s, t, id);
    KeepsPlace(s, t, id);
  }

  lemma {:induction false} ReaderStops(s: System, id: Id)
    requires Placed(s, id) && (s.reader.EmitFailed? || s.reader.Ending?)
    ensures Placed(ReaderNext(s, Notification), id)
  {
    hide Stored, AfterStop, Places, Placed, WorkerHas, WriterHas;
    var t := ReaderNext(s, Notification);
    StopCalls(s.control);
    StoredSame(s, t, id);
    KeepsPlace(s, t, id);
  }

  /** Steps that touch neither a queue nor the calls. */
  lemma {:induction false} ReaderMoves(s: System, input: Input, id: Id)
    requires Placed(s, id)
    requires s.reader.CheckStopped? || s.reader.ReadFrame? || s.reader.Closing? || s.reader.Gone?
    ensures Placed(ReaderNext(s, input), id)
  {
    hide Stored, Places, Placed, WorkerHas, WriterHas;
    var t := ReaderNext(s, input);
    StoredSame(s, t, id);
    KeepsPlace(s, t, id);
  }

  lemma WorkerTakes(s: System, timeout: bool, id: Id)
    requires Placed(s, id) && s.worker == Worker.Receiving
    ensures Placed(WorkerNext(s, timeout), id)
  {
    hide Stored, Places;
    var t := WorkerNext(s, timeout);
    PlacesAre(s, id);
    PlacesAre(t, id);
    HeadTaken(s, id);
    StoredSame(if s.jobs != [] && !timeout then s.(jobs := s.jobs[1..]) else s, t, id);
  }

  lemma WorkerBegins(s: System, i: Id, id: Id)
    requires Placed(s, id) && s.worker == Beginning(i)
    ensures Placed(WorkerNext(s, false), id)
  {
    hide Stored, Places;
    var t := WorkerNext(s, false);
    PlacesAre(s, id);
    PlacesAre(t, id);
    JobStored(s, i, id);
    StoredSame(if s.control.stopped then s.(droppedJobs := s.droppedJobs + [i]) else s, t, id);
  }

  lemma WorkerEmits(s: System, i: Id, id: Id)
    requires Placed(s, id) && s.worker == Worker.Emitting(i)
    ensures Placed(WorkerNext(s, false), id)
  {
    hide Stored, Places;
    var t := WorkerNext(s, false);
    PlacesAre(s, id);
    PlacesAre(t, id);
    OutputStored(s, Some(i), id);
    StoredSame(if OutputOpen(s) then s.(outputs := s.outputs + [Some(i)])
               else s.(droppedOutputs := s.droppedOutputs + [Some(i)]), t, id);
  }

  lemma WorkerEnds(s: System, i: Id, id: Id)
    requires Placed(s, id) && s.worker == Executing(i)
    ensures Placed(WorkerNext(s, false), id)
  {
    hide Stored, Places, ReaderHas, WriterHas;
    var t := WorkerNext(s, false);
    PlacesAre(s, id);
    PlacesAre(t, id);
    StoredSame(s, t, id);
  }

  lemma WorkerMoves(s: System, timeout: bool, id: Id)
    requires Placed(s, id) && !s.worker.Receiving? && !s.worker.Beginning? && !s.worker.Emitting?
    requires !s.worker.Executing?
    ensures Placed(WorkerNext(s, timeout), id)
  {
    hide Stored, AfterStop, Places, Placed, ReaderHas, WriterHas;
    var t := WorkerNext(s, timeout);
    StopCalls(s.control);
    QueuesDropped(s, id);
    StoredSame(if s.worker.Closing? then s.(droppedJobs := s.droppedJobs + s.jobs, jobs := []) else s, t, id);
    KeepsPlace(s, t, id);
  }

  lemma {:induction false} WorkerPlaces(s: System, timeout: bool, id: Id)
    requires Placed(s, id)
    ensures Placed(WorkerNext(s, timeout), id)
  {
    hide Stored, AfterStop, Places, Placed;
    match s.worker
    case Receiving => WorkerTakes(s, timeout, id);
    case Beginning(i) => WorkerBegins(s, i, id);
    case Emitting(i) => WorkerEmits(s, i, id);
    case Executing(i) => WorkerEnds(s, i, id);
    case _ => WorkerMoves(s, timeout, id);
  }

  lemma WriterTakes(s: System, id: Id)
    requires Placed(s, id) && s.writer == Writer.Receiving
    ensures Placed(WriterNext(s, false), id)
  {
    hide Stored, Places, ReaderHas, WorkerHas;
    var t := WriterNext(s, false);
    PlacesAre(s, id);
    PlacesAre(t, id);
    HeadTaken(s, id);
    StoredSame(if s.outputs != [] then s.(outputs := s.outputs[1..]) else s, t, id);
  }

  lemma WriterChecks(s: System, fails: bool, retire: Option<Id>, id: Id)
    requires Placed(s, id) && (s.writer == Checking(retire) || (s.writer.Writing? && s.writer.retire == retire))
    ensures Placed(WriterNext(s, fails), id)
  {
    hide Stored, Places, ReaderHas, WorkerHas;
    var t := WriterNext(s, fails);
    PlacesAre(s, id);
    PlacesAre(t, id);
    OutputStored(s, retire, id);
    var drops := if s.writer.Checking? then s.control.stopped else !s.writer.cancelled && fails;
    StoredSame(if drops then s.(droppedOutputs := s.droppedOutputs + [retire]) else s, t, id);
  }

  lemma WriterRetires(s: System, i: Id, id: Id)
    requires Placed(s, id) && s.writer == Retiring(i)
    ensures Placed(WriterNext(s, false), id)
  {
    hide Stored, Places, ReaderHas, WorkerHas;
    var t := WriterNext(s, false);
    PlacesAre(s, id);
    PlacesAre(t, id);
    StoredSame(s, t, id);
  }

  lemma WriterMoves(s: System, fails: bool, id: Id)
    requires Placed(s, id) && (s.writer.WriteFailed? || s.writer.Ending? || s.writer.Closing? || s.writer.Gone?)
    ensures Placed(WriterNext(s, fails), id)
  {
    hide Stored, AfterStop, Places, Placed, ReaderHas, WorkerHas;
    var t := WriterNext(s, fails);
    StopCalls(s.control);
    QueuesDropped(s, id);
    StoredSame(if s.writer.Closing? then s.(droppedOutputs := s.droppedOutputs + s.outputs, outputs := [])
        else s, t, id);
    KeepsPlace(s, t, id);
  }

  lemma {:induction false} WriterPlaces(s: System, fails: bool, id: Id)
    requires Placed(s, id)
    ensures Placed(WriterNext(s, fails), id)
  {
    hide Stored, AfterStop, Places, Placed;
    match s.writer
    case Receiving => WriterTakes(s, id);
    case Checking(retire) => WriterChecks(s, fails, retire, id);
    case Writing(retire, cancelled) => WriterChecks(s, fails, retire, id);
    case Retiring(i) => WriterRetires(s, i, id);
    case _ => WriterMoves(s, fails, id);
  }

  lemma InspectCalls(c: Control)
    ensures AfterInspect(c).0.calls == c.calls
  {
  }

  lemma {:induction false} InterrupterPlaces(s: System, id: Id)
    requires Placed(s, id)
    ensures Placed(InterrupterNext(s), id)
  {
    hide Stored, Places, Placed, AfterInspect, ReaderHas, WorkerHas, WriterHas;
    InspectCalls(s.control);
    StoredSame(s, InterrupterNext(s), id);
    KeepsPlace(s, InterrupterNext(s), id);
  }

  lemma {:induction false} KeepsPartition(s: System, step: Step)
    requires Partition(s)
    ensures Partition(Next(s, step))
  {
    hide Places, ReaderNext, WorkerNext, WriterNext, InterrupterNext;
    forall id: Id ensures Places(Next(s, step), id) == One(id in Next(s, step).control.calls) {
      assert Placed(s, id);
      match step
      case ReaderStep(input) => ReaderPlaces(s, input, id);
      case WorkerStep(timeout) => WorkerPlaces(s, timeout, id);
      case WriterStep(fails) => WriterPlaces(s, fails, id);
      case InterrupterStep => InterrupterPlaces(s, id);
    }
  }

  lemma StopCalls(c: Control)
    ensures AfterStop(c).calls == c.calls && AfterStop(c).active == c.active && AfterStop(c).stopped
    ensures AfterStop(c).wake
  {
  }

  lemma StageCalls(c: Control, id: Id, stage: Stage)
    requires id in c.calls
    ensures WithStage(c, id, stage).calls.Keys == c.calls.Keys
  {
  }

  lemma CancelCalls(c: Control, id: Id)
    ensures AfterCancel(c, id).calls.Keys == c.calls.Keys && AfterCancel(c, id).active == c.active
    ensures AfterCancel(c, id).stopped == c.stopped
    ensures forall i :: i in c.calls ==> AfterCancel(c, id).calls[i].stage == c.calls[i].stage
    ensures forall i :: i in c.calls && (c.calls[i].stage.Immediate? || c.calls[i].stage.Finished? || i != id) ==>
              AfterCancel(c, id).calls[i] == c.calls[i]
  {
  }

  // ---- Stages ----

  lemma ReaderFrame(c: Control, d: Control, id: Id, r: Reader)
    requires ReaderOk(c, r) && Except(c, d, id) && !ReaderHas(r, id)
    ensures ReaderOk(d, r)
  {
  }

  lemma WorkerFrame(c: Control, d: Control, id: Id, w: Worker)
    requires WorkerOk(c, w) && Except(c, d, id) && !WorkerHas(w, id) && d.active == c.active
    ensures WorkerOk(d, w)
  {
  }

  lemma WriterFrame(c: Control, d: Control, id: Id, w: Writer)
    requires WriterOk(c, w) && Except(c, d, id) && !WriterHas(w, id)
    ensures WriterOk(d, w)
  {
  }

  ghost predicate StagesQueued(c: Control, jobs: seq<Id>, outputs: seq<Option<Id>>) {
    && (forall id :: id in jobs ==> InStage(c, id, Queued))
    && (forall id :: Some(id) in outputs ==> Awaiting(c, id))
  }

  lemma QueueFrame(c: Control, d: Control, id: Id, jobs: seq<Id>, outputs: seq<Option<Id>>)
    requires StagesQueued(c, jobs, outputs) && Except(c, d, id) && id !in jobs && Some(id) !in outputs
    ensures StagesQueued(d, jobs, outputs)
  {
  }

  /** An id one thread holds is nowhere else. */
  lemma Alone(s: System, id: Id)
    requires Partition(s)
    ensures ReaderHas(s.reader, id) ==> !WorkerHas(s.worker, id) && !WriterHas(s.writer, id)
    ensures WorkerHas(s.worker, id) ==> !ReaderHas(s.reader, id) && !WriterHas(s.writer, id)
    ensures WriterHas(s.writer, id) ==> !ReaderHas(s.reader, id) && !WorkerHas(s.worker, id)
    ensures ReaderHas(s.reader, id) || WorkerHas(s.worker, id) || WriterHas(s.writer, id) ==>
              id in s.control.calls && id !in s.jobs && Some(id) !in s.outputs
    ensures id !in s.control.calls ==>
              !ReaderHas(s.reader, id) && !WorkerHas(s.worker, id) && !WriterHas(s.writer, id)
              && id !in s.jobs && Some(id) !in s.outputs
  {
    assert Places(s, id) == One(id in s.control.calls);
  }

  /** What the threads and queues say about stages, apart from counts. */
  ghost predicate Stages(s: System) {
    && ReaderOk(s.control, s.reader) && WorkerOk(s.control, s.worker) && WriterOk(s.control, s.writer)
    && StagesQueued(s.control, s.jobs, s.outputs)
  }

  /** Cancelling and stopping change no stage, and never touch an id on its way to stdout. */
  ghost predicate Gentle(c: Control, d: Control) {
    && d.calls.Keys == c.calls.Keys && d.active == c.active
    && (forall i :: i in c.calls ==> d.calls[i].stage == c.calls[i].stage)
    && (forall i :: i in c.calls && (c.calls[i].stage.Immediate? || c.calls[i].stage.Finished?) ==>
          d.calls[i] == c.calls[i])
  }

  predicate HoldsQueued(r: Reader) {
    r.Queueing? || r.Sending? || r.Refusing?
  }

  lemma GentleStages(s: System, d: Control)
    requires Stages(s) && Gentle(s.control, d)
    requires HoldsQueued(s.reader) ==> d.calls == s.control.calls
    ensures Stages(s.(control := d))
  {
  }

  lemma ChangeStages(s: System, d: Control, id: Id, reader: Reader, worker: Worker, writer: Writer)
    requires Stages(s) && Except(s.control, d, id) && id !in s.jobs && Some(id) !in s.outputs
    requires ReaderOk(d, reader) && WorkerOk(d, worker) && WriterOk(d, writer)
    ensures Stages(s.(control := d, reader := reader, worker := worker, writer := writer))
  {
    QueueFrame(s.control, d, id, s.jobs, s.outputs);
  }

  lemma {:induction false} ReaderStages(s: System, input: Input)
    requires Partition(s) && Stages(s)
    ensures Stages(ReaderNext(s, input)) && ReaderNext(s, input).panicked == s.panicked
  {
    hide AfterStop, AfterCancel, AfterRegister, Partition;
    match s.reader
    case Cancelling(id) => CancelStages(s, id);
    case Registering(id, tool) => RegisterStages(s, id, tool);
    case Queueing(id) => RestageStages(s, id, Queued, Sending(id));
    case Refusing(id) => RestageStages(s, id, Finished, Reader.Emitting(Some(id)));
    case EmitFailed => StopStages(s);
    case Ending => StopStages(s);
    case _ =>
  }

  lemma {:induction false} CancelStages(s: System, id: Id)
    requires Stages(s) && s.reader == Cancelling(id)
    ensures Stages(ReaderNext(s, Notification))
  {
    hide AfterCancel;
    CancelCalls(s.control, id);
    GentleStages(s, AfterCancel(s.control, id));
  }

  lemma {:induction false} StopStages(s: System)
    requires Stages(s) && (s.reader.EmitFailed? || s.reader.Ending?)
    ensures Stages(ReaderNext(s, Notification))
  {
    hide AfterStop;
    StopCalls(s.control);
    GentleStages(s, AfterStop(s.control));
  }

  lemma {:induction false} RegisterStages(s: System, id: Id, tool: bool)
    requires Partition(s) && Stages(s) && s.reader == Registering(id, tool)
    ensures Stages(ReaderNext(s, Notification))
  {
    hide Partition;
    Alone(s, id);
    var (d, r) := AfterRegister(s.control, id);
    if r.Registered? {
      WorkerFrame(s.control, d, id, s.worker);
      WriterFrame(s.control, d, id, s.writer);
      ChangeStages(s, d, id, if tool then Queueing(id) else Reader.Emitting(Some(id)), s.worker, s.writer);
    }
  }

  lemma {:induction false} RestageStages(s: System, id: Id, stage: Stage, next: Reader)
    requires Partition(s) && Stages(s) && ReaderHas(s.reader, id) && id in s.control.calls
    requires ReaderOk(WithStage(s.control, id, stage), next)
    ensures Stages(s.(control := WithStage(s.control, id, stage), reader := next))
  {
    hide Partition;
    Alone(s, id);
    var d := WithStage(s.control, id, stage);
    WorkerFrame(s.control, d, id, s.worker);
    WriterFrame(s.control, d, id, s.writer);
    ChangeStages(s, d, id, next, s.worker, s.writer);
  }

  lemma {:induction false} WorkerStages(s: System, timeout: bool)
    requires Partition(s) && Stages(s)
    ensures Stages(WorkerNext(s, timeout)) && WorkerNext(s, timeout).panicked == s.panicked
  {
    hide AfterStop, Partition, AfterBegin, AfterEnd;
    match s.worker
    case Receiving => assert s.jobs != [] ==> s.jobs[0] in s.jobs;
    case Beginning(id) => BeginStages(s, id);
    case Executing(id) => EndStages(s, id);
    case EmitFailed =>
      StopCalls(s.control);
      GentleStages(s, AfterStop(s.control));
    case Ending =>
      StopCalls(s.control);
      GentleStages(s, AfterStop(s.control));
    case _ =>
  }

  lemma {:induction false} BeginStages(s: System, id: Id)
    requires Partition(s) && Stages(s) && s.worker == Beginning(id)
    ensures Stages(WorkerNext(s, false)) && WorkerNext(s, false).panicked == s.panicked
  {
    hide Partition;
    Alone(s, id);
    if !s.control.stopped {
      var (d, r) := AfterBegin(s.control, id);
      ReaderFrame(s.control, d, id, s.reader);
      WriterFrame(s.control, d, id, s.writer);
      ChangeStages(s, d, id, s.reader, if r.Skipped? then Worker.CheckStopped else Executing(id), s.writer);
    }
  }

  lemma {:induction false} EndStages(s: System, id: Id)
    requires Partition(s) && Stages(s) && s.worker == Executing(id)
    ensures Stages(WorkerNext(s, false)) && WorkerNext(s, false).panicked == s.panicked
  {
    hide Partition;
    Alone(s, id);
    var (d, discard) := AfterEnd(s.control, id);
    ReaderFrame(s.control, d, id, s.reader);
    WriterFrame(s.control, d, id, s.writer);
    ChangeStages(s, d, id, s.reader, if discard then Worker.CheckStopped else Worker.Emitting(id), s.writer);
  }

  lemma {:induction false} WriterStages(s: System, fails: bool)
    requires Partition(s) && Stages(s)
    ensures Stages(WriterNext(s, fails)) && WriterNext(s, fails).panicked == s.panicked
  {
    hide AfterStop, Partition;
    match s.writer
    case Receiving => assert s.outputs != [] ==> s.outputs[0] in s.outputs;
    case Retiring(id) => RetireStages(s, id);
    case WriteFailed =>
      StopCalls(s.control);
      GentleStages(s, AfterStop(s.control));
    case Ending =>
      StopCalls(s.control);
      GentleStages(s, AfterStop(s.control));
    case _ =>
  }

  lemma RetireStages(s: System, id: Id)
    requires Partition(s) && Stages(s) && s.writer == Retiring(id)
    ensures Stages(WriterNext(s, false))
  {
    hide Partition;
    Alone(s, id);
    var d := Without(s.control, id);
    ReaderFrame(s.control, d, id, s.reader);
    WorkerFrame(s.control, d, id, s.worker);
    ChangeStages(s, d, id, s.reader, s.worker, Writer.Receiving);
  }

  lemma InterrupterStages(s: System)
    requires Stages(s)
    ensures Stages(InterrupterNext(s)) && InterrupterNext(s).panicked == s.panicked
  {
    GentleStages(s, InterrupterNext(s).control);
  }

  // ---- Bounds ----

  predicate Bounded(s: System) {
    |s.jobs| <= QUEUE_CAPACITY && |s.outputs| <= QUEUE_CAPACITY && |s.control.calls| <= MAXIMUM_OUTSTANDING
  }

  lemma SameSize(c: Control, d: Control)
    requires d.calls.Keys == c.calls.Keys
    ensures |d.calls| == |c.calls|
  {
    assert |d.calls| == |d.calls.Keys| && |c.calls| == |c.calls.Keys|;
  }

  lemma Restaged(c: Control, id: Id, stage: Stage)
    requires id in c.calls
    ensures |WithStage(c, id, stage).calls| == |c.calls|
  {
    assert WithStage(c, id, stage).calls.Keys == c.calls.Keys;
    SameSize(c, WithStage(c, id, stage));
  }

  lemma Removed(c: Control, id: Id)
    ensures |Without(c, id).calls| <= |c.calls|
  {
    assert Without(c, id).calls.Keys == c.calls.Keys - {id};
    assert |Without(c, id).calls| == |Without(c, id).calls.Keys|;
  }

  lemma ReaderBounds(s: System, input: Input)
    requires Bounded(s)
    ensures Bounded(ReaderNext(s, input))
  {
    hide AfterStop, AfterCancel, WithStage;
    StopCalls(s.control);
    match s.reader
    case Cancelling(id) =>
      CancelCalls(s.control, id);
      SameSize(s.control, AfterCancel(s.control, id));
    case Queueing(id) => if id in s.control.calls { Restaged(s.control, id, Queued); }
    case Refusing(id) => if id in s.control.calls { Restaged(s.control, id, Finished); }
    case _ =>
  }

  lemma WorkerBounds(s: System, timeout: bool)
    requires Bounded(s)
    ensures Bounded(WorkerNext(s, timeout))
  {
    hide AfterStop, WithStage, Without;
    StopCalls(s.control);
    match s.worker
    case Beginning(id) =>
      Removed(s.control, id);
      if id in s.control.calls { Restaged(s.control, id, Active); }
    case Executing(id) =>
      if id in s.control.calls {
        Restaged(s.control, id, Finished);
        Removed(WithStage(s.control, id, Finished).(active := None, interrupted := false), id);
      }
    case _ =>
  }

  lemma {:induction false} KeepsBounds(s: System, step: Step)
    requires Bounded(s)
    ensures Bounded(Next(s, step))
  {
    hide AfterStop, Without, ReaderNext, WorkerNext, Bounded;
    match step
    case ReaderStep(input) => ReaderBounds(s, input);
    case WorkerStep(timeout) => WorkerBounds(s, timeout);
    case WriterStep(fails) => WriterBounds(s, fails);
    case InterrupterStep => InterrupterBounds(s);
  }

  lemma WriterBounds(s: System, fails: bool)
    requires Bounded(s)
    ensures Bounded(WriterNext(s, fails))
  {
    hide AfterStop, Without;
    StopCalls(s.control);
    if s.writer.Retiring? {
      Removed(s.control, s.writer.id);
    }
  }

  lemma InterrupterBounds(s: System)
    requires Bounded(s)
    ensures Bounded(InterrupterNext(s))
  {
  }

  // ---- Interrupts, wakeups, drops ----

  /** What concerns interrupts and stopping. */
  ghost predicate Signals(s: System) {
    WakeOk(s) && InterruptOk(s.control) && DropsOk(s)
  }

  lemma StopSignals(s: System)
    requires Signals(s)
    ensures Signals(s.(control := AfterStop(s.control)))
  {
  }

  lemma CancelSignals(s: System, id: Id)
    requires Signals(s)
    ensures Signals(s.(control := AfterCancel(s.control, id)))
  {
  }

  /** Nothing about interrupts changes when the running call keeps its state. */
  lemma QuietSignals(s: System, d: Control)
    requires Signals(s) && d == s.control.(calls := d.calls)
    requires s.control.active.Some? ==>
               (CancelledCall(d, s.control.active.value) <==> CancelledCall(s.control, s.control.active.value))
    ensures Signals(s.(control := d))
  {
  }

  lemma {:induction false} ReaderSignals(s: System, input: Input)
    requires Partition(s) && Stages(s) && Signals(s)
    ensures Signals(ReaderNext(s, input))
  {
    hide AfterStop, AfterCancel, AfterRegister, WithStage, Partition, Stages, Signals;
    var t := ReaderNext(s, input);
    match s.reader
    case Cancelling(id) =>
      CancelSignals(s, id);
      ReaderQuiet(s.(control := AfterCancel(s.control, id)), t);
    case Registering(id, tool) => RegisterReader(s, id);
    case Queueing(id) => RestageReader(s, id, Queued);
    case Refusing(id) => RestageReader(s, id, Finished);
    case EmitFailed => ReaderStopSignals(s);
    case Ending => ReaderStopSignals(s);
    case _ => ReaderQuiet(s, t);
  }

  lemma {:induction false} RegisterReader(s: System, id: Id)
    requires Partition(s) && Stages(s) && Signals(s) && s.reader.Registering? && s.reader.id == id
    ensures Signals(ReaderNext(s, Notification))
  {
    hide Partition, Stages, Signals;
    RegisterSignals(s, id);
    ReaderQuiet(s.(control := AfterRegister(s.control, id).0), ReaderNext(s, Notification));
  }

  lemma {:induction false} RestageReader(s: System, id: Id, stage: Stage)
    requires Signals(s) && (s.reader == (if stage.Queued? then Queueing(id) else Refusing(id)))
    ensures Signals(ReaderNext(s, Notification))
  {
    hide WithStage, Signals;
    if id in s.control.calls {
      RestageSignals(s, id, if stage.Queued? then Queued else Finished);
      ReaderQuiet(s.(control := WithStage(s.control, id, if stage.Queued? then Queued else Finished)),
                  ReaderNext(s, Notification));
    } else {
      ReaderQuiet(s, ReaderNext(s, Notification));
    }
  }

  lemma {:induction false} ReaderStopSignals(s: System)
    requires Signals(s) && (s.reader.EmitFailed? || s.reader.Ending?)
    ensures Signals(ReaderNext(s, Notification))
  {
    hide AfterStop, InterruptOk, NeedsInterrupt;
    StopCalls(s.control);
    StopSignals(s);
  }

  /** A reader step that leaves control alone. */
  lemma ReaderQuiet(s: System, t: System)
    requires Signals(s) && t == s.(reader := t.reader, jobs := t.jobs, outputs := t.outputs,
                                   droppedOutputs := t.droppedOutputs, replies := t.replies, log := t.log,
                                   panicked := t.panicked)
    requires t.reader.Closing? ==> s.reader.Closing?
    requires !s.reader.EmitFailed? && (t.droppedOutputs != s.droppedOutputs ==> t.reader.EmitFailed?)
    ensures Signals(t)
  {
  }

  lemma RegisterSignals(s: System, id: Id)
    requires Partition(s) && Stages(s) && Signals(s)
    ensures Signals(s.(control := AfterRegister(s.control, id).0))
  {
    hide Partition, InterruptOk, WakeOk, DropsOk;
    Alone(s, id);
    QuietSignals(s, AfterRegister(s.control, id).0);
  }

  lemma RestageSignals(s: System, id: Id, stage: Stage)
    requires Signals(s) && id in s.control.calls
    ensures Signals(s.(control := WithStage(s.control, id, stage)))
  {
    hide InterruptOk, WakeOk, DropsOk;
    QuietSignals(s, WithStage(s.control, id, stage));
  }

  lemma {:induction false} WorkerSignals(s: System, timeout: bool)
    requires Partition(s) && Stages(s) && Signals(s)
    ensures Signals(WorkerNext(s, timeout))
  {
    hide AfterStop, Partition;
    match s.worker
    case EmitFailed =>
      StopCalls(s.control);
      StopSignals(s);
    case Ending =>
      StopCalls(s.control);
      StopSignals(s);
    case _ =>
  }

  lemma {:induction false} WriterSignals(s: System, fails: bool)
    requires Partition(s) && Stages(s) && Signals(s)
    ensures Signals(WriterNext(s, fails))
  {
    hide AfterStop, Partition;
    match s.writer
    case Retiring(id) =>
      Alone(s, id);
      QuietSignals(s, Without(s.control, id));
    case WriteFailed =>
      StopCalls(s.control);
      StopSignals(s);
    case Ending =>
      StopCalls(s.control);
      StopSignals(s);
    case _ =>
  }

  lemma InterrupterSignals(s: System)
    requires Signals(s)
    ensures Signals(InterrupterNext(s))
  {
  }

  // ---- Every interleaving ----

  ghost predicate Whole(s: System) {
    Partition(s) && Stages(s) && Bounded(s) && Signals(s) && !s.panicked
  }

  lemma WholeIsInv(s: System)
    ensures Whole(s) <==> Inv(s)
  {
  }

  lemma {:induction false} StepKeeps(s: System, step: Step)
    requires Whole(s)
    ensures Whole(Next(s, step))
  {
    hide Partition, Stages, Signals, Bounded, ReaderNext, WorkerNext, WriterNext, InterrupterNext;
    KeepsPartition(s, step);
    KeepsBounds(s, step);
    match step
    case ReaderStep(input) =>
      ReaderStages(s, input);
      ReaderSignals(s, input);
    case WorkerStep(timeout) =>
      WorkerStages(s, timeout);
      WorkerSignals(s, timeout);
    case WriterStep(fails) =>
      WriterStages(s, fails);
      WriterSignals(s, fails);
    case InterrupterStep =>
      InterrupterStages(s);
      InterrupterSignals(s);
  }

  /** The invariant holds after any interleaving of steps of the four threads. */
  lemma {:induction false} Reachable(steps: seq<Step>)
    ensures Inv(After(steps))
    decreases |steps|
  {
    hide Whole, Inv, Next;
    ReachableWhole(steps);
    WholeIsInv(After(steps));
  }

  lemma {:induction false} ReachableWhole(steps: seq<Step>)
    ensures Whole(After(steps))
    decreases |steps|
  {
    hide Whole, Next;
    if steps == [] {
      StartWhole();
    } else {
      ReachableWhole(steps[..|steps| - 1]);
      StepKeeps(After(steps[..|steps| - 1]), steps[|steps| - 1]);
    }
  }

  lemma StartWhole()
    ensures Whole(START)
  {
    forall id: Id ensures Places(START, id) == One(id in START.control.calls) {
    }
  }

  // ---- What it means ----

  /**
   No `get_mut(id).unwrap()` ever fails: whenever a thread is about to look a call up, the call is there. At most 32
   requests are outstanding.
   */
  lemma {:induction false} NeverPanics(steps: seq<Step>)
    ensures !After(steps).panicked && |After(steps).control.calls| <= 32
    ensures match After(steps).reader
            case Queueing(id) => id in After(steps).control.calls
            case Refusing(id) => id in After(steps).control.calls
            case _ => true
    ensures match After(steps).worker
            case Beginning(id) => id in After(steps).control.calls
            case Executing(id) => id in After(steps).control.calls
            case _ => true
  {
    hide Inv, After;
    Reachable(steps);
    Facts(After(steps));
  }

  /** The single-owner fact, place by place. */
  lemma {:induction false} OneOwner(steps: seq<Step>, id: Id)
    ensures var s := After(steps);
            && Places(s, id) <= 1
            && (id in s.control.calls <==> Places(s, id) == 1)
  {
    hide After, Places, Inv;
    Reachable(steps);
    Facts(After(steps));
    assert Places(After(steps), id) == One(id in After(steps).control.calls);
  }

  /** No id on its way to stdout is ever cancelled: the writer's own test never finds one. */
  lemma WriterNeverSkips(steps: seq<Step>, id: Id)
    ensures var s := After(steps);
            && (Some(id) in s.outputs || WriterHas(s.writer, id) ==> !CancelledCall(s.control, id))
            && (s.worker == Worker.Emitting(id) || s.reader == Reader.Emitting(Some(id)) ==>
                  !CancelledCall(s.control, id))
            && (s.writer.Writing? ==> !s.writer.cancelled)
  {
    hide After, Inv, Partition;
    Reachable(steps);
    Facts(After(steps));
  }

  /**
   The step interrupts one call: it is the call the worker is executing, which it still executes after the step, and
   which has to be interrupted because it is cancelled or the adapter has stopped.
   */
  predicate InterruptsRunning(s: System, step: Step) {
    var t := Next(s, step);
    && s.worker.Executing? && t.worker == s.worker
    && t.control.hits == s.control.hits + [Some(s.worker.id)]
    && t.control.active == Some(s.worker.id)
    && (t.control.stopped || CancelledCall(t.control, s.worker.id))
  }

  /** A lock section that uses the interrupt handle does so once, on an active call that has to be interrupted. */
  predicate HitsActive(c: Control, d: Control) {
    && c.active.Some? && d.active == c.active && d.hits == c.hits + [c.active]
    && (d.stopped || CancelledCall(d, c.active.value))
  }

  lemma SectionHits(c: Control, id: Id)
    ensures AfterStop(c).hits == c.hits || HitsActive(c, AfterStop(c))
    ensures AfterCancel(c, id).hits == c.hits || HitsActive(c, AfterCancel(c, id))
    ensures AfterInspect(c).0.hits == c.hits || HitsActive(c, AfterInspect(c).0)
    ensures c.active.None? ==> AfterStop(c).hits == c.hits
  {
  }

  lemma {:induction false} StepInterrupts(s: System, step: Step)
    requires WorkerOk(s.control, s.worker)
    ensures Next(s, step).control.hits == s.control.hits || InterruptsRunning(s, step)
  {
    hide ReaderNext, WorkerNext, WriterNext, InterrupterNext, CancelledCall;
    match step
    case ReaderStep(input) => ReaderInterrupts(s, input);
    case WorkerStep(timeout) => WorkerHitsNothing(s, timeout);
    case WriterStep(fails) => WriterInterrupts(s, fails);
    case InterrupterStep => InterrupterInterrupts(s);
  }

  lemma RegisterHits(c: Control, id: Id)
    ensures AfterRegister(c, id).0.hits == c.hits
  {
  }

  lemma StageHits(c: Control)
    ensures forall id, stage :: id in c.calls ==> WithStage(c, id, stage).hits == c.hits
  {
  }

  lemma {:induction false} ReaderInterrupts(s: System, input: Input)
    ensures var t := ReaderNext(s, input);
            t.worker == s.worker && (t.control.hits == s.control.hits || HitsActive(s.control, t.control))
  {
    hide AfterStop, AfterCancel, HitsActive, AfterRegister, WithStage;
    RegisterHits(s.control, if s.reader.Registering? then s.reader.id else "");
    StageHits(s.control);
    SectionHits(s.control, if s.reader.Cancelling? then s.reader.id else "");
  }

  lemma {:induction false} WorkerHitsNothing(s: System, timeout: bool)
    requires WorkerOk(s.control, s.worker)
    ensures WorkerNext(s, timeout).control.hits == s.control.hits
  {
    hide AfterStop, HitsActive;
    if s.worker.EmitFailed? || s.worker.Ending? {
      SectionHits(s.control, "");
    }
  }

  lemma WriterInterrupts(s: System, fails: bool)
    ensures var t := WriterNext(s, fails);
            t.worker == s.worker && (t.control.hits == s.control.hits || HitsActive(s.control, t.control))
  {
    hide AfterStop, HitsActive;
    SectionHits(s.control, "");
  }

  lemma InterrupterInterrupts(s: System)
    ensures var t := InterrupterNext(s);
            t.worker == s.worker && (t.control.hits == s.control.hits || HitsActive(s.control, t.control))
  {
    hide AfterInspect, HitsActive;
    SectionHits(s.control, "");
  }

  /**
   Every interrupt ever issued was issued by some step `n` of the interleaving that interrupted the call then running,
   and nothing else: never a later call, and never a call that was neither cancelled nor running when the adapter
   stopped.
   */
  lemma {:induction false} InterruptsJustified(steps: seq<Step>, k: nat) returns (n: nat)
    requires k < |After(steps).control.hits|
    ensures n < |steps| && |After(steps[..n]).control.hits| == k && InterruptsRunning(After(steps[..n]), steps[n])
    ensures After(steps).control.hits[k] == Some(After(steps[..n]).worker.id)
    decreases |steps|
  {
    hide InterruptsRunning, Inv, Next, Partition, WorkerOk;
    if steps != [] {
      var before, last := steps[..|steps| - 1], steps[|steps| - 1];
      Reachable(before);
      Facts(After(before));
      StepInterrupts(After(before), last);
      if k < |After(before).control.hits| {
        n := InterruptsJustified(before, k);
        assert before[..n] == steps[..n] && before[n] == steps[n];
        HitsExtend(After(before), last);
      } else {
        n := |steps| - 1;
        HitsExtend(After(before), last);
      }
    }
  }

  lemma HitsExtend(s: System, step: Step)
    requires Next(s, step).control.hits == s.control.hits || InterruptsRunning(s, step)
    ensures s.control.hits <= Next(s, step).control.hits
    ensures Next(s, step).control.hits != s.control.hits ==>
              s.worker.Executing? && Next(s, step).control.hits == s.control.hits + [Some(s.worker.id)]
  {
  }

  /** A running call that was interrupted never has its result sent: it is cancelled or the adapter has stopped. */
  lemma InterruptedIsDiscarded(steps: seq<Step>, timeout: bool)
    requires After(steps).worker.Executing? && After(steps).control.interrupted
    ensures var id := After(steps).worker.id;
            var t := WorkerNext(After(steps), timeout);
            t.worker.CheckStopped? && id !in t.control.calls && t.outputs == After(steps).outputs
  {
    hide After, Partition;
    Reachable(steps);
    Facts(After(steps));
  }

  /** No wakeup is lost: a call that has to be interrupted finds a token pending or the interrupter in its loop. */
  lemma {:induction false} NoLostWakeup(steps: seq<Step>)
    ensures var s := After(steps);
            && (NeedsInterrupt(s.control) ==> s.control.wake || s.interrupter.Inspecting? || s.interrupter.Sleeping?)
            && (s.control.active.Some? <==> s.worker.Executing?)
            && (s.control.active.Some? ==> s.control.active.value == s.worker.id)
  {
    hide After, Inv, Partition;
    Reachable(steps);
    Facts(After(steps));
  }

  // ---- The shared object's invariant ----

  lemma {:induction false} ReaderControl(s: System, input: Input)
    requires ControlOk(s.control) && ReaderOk(s.control, s.reader)
    ensures ControlOk(ReaderNext(s, input).control)
  {
    hide AfterStop, AfterCancel, AfterRegister, WithStage, ControlOk;
    match s.reader
    case Cancelling(id) => CancelKeeps(s.control, id);
    case Registering(id, tool) => RegisterKeeps(s.control, id);
    case Queueing(id) => StageKeeps(s.control, id, Queued);
    case Refusing(id) => StageKeeps(s.control, id, Finished);
    case EmitFailed => StopKeeps(s.control);
    case Ending => StopKeeps(s.control);
    case _ =>
  }

  lemma {:induction false} WorkerControl(s: System, timeout: bool)
    requires ControlOk(s.control) && WorkerOk(s.control, s.worker)
    ensures ControlOk(WorkerNext(s, timeout).control)
  {
    hide AfterStop, AfterBegin, AfterEnd, ControlOk;
    match s.worker
    case Beginning(id) => BeginKeeps(s.control, id);
    case Executing(id) => EndKeeps(s.control, id);
    case EmitFailed => StopKeeps(s.control);
    case Ending => StopKeeps(s.control);
    case _ =>
  }

  lemma {:induction false} WriterControl(s: System, fails: bool)
    requires ControlOk(s.control) && WriterOk(s.control, s.writer)
    ensures ControlOk(WriterNext(s, fails).control)
  {
    hide AfterStop, Without;
    match s.writer
    case Retiring(id) => RetireKeeps(s.control, id);
    case WriteFailed => StopKeeps(s.control);
    case Ending => StopKeeps(s.control);
    case _ =>
  }

  lemma {:induction false} InterrupterControl(s: System)
    requires ControlOk(s.control)
    ensures ControlOk(InterrupterNext(s).control)
  {
    InspectKeeps(s.control);
  }

  /**
   In every interleaving the shared object keeps its invariant, and each section is entered as its method requires: a
   job begins queued and alone, and a run ends while its call is the active one.
   */
  lemma {:induction false} ReachableControl(steps: seq<Step>)
    ensures var s := After(steps);
            && ControlOk(s.control)
            && (s.worker.Beginning? ==> InStage(s.control, s.worker.id, Queued) && s.control.active.None?)
            && (s.worker.Executing? ==> s.control.active == Some(s.worker.id))
            && (s.writer.Retiring? ==> s.control.active != Some(s.writer.id))
            && (s.reader.Queueing? || s.reader.Refusing? ==>
                  s.reader.id in s.control.calls && !s.control.calls[s.reader.id].cancelled
                  && !s.control.calls[s.reader.id].stage.Active?)
    decreases |steps|
  {
    hide Inv, Next, Partition, ControlOk;
    Reachable(steps);
    Facts(After(steps));
    if steps != [] {
      var before, last := steps[..|steps| - 1], steps[|steps| - 1];
      ReachableControl(before);
      Reachable(before);
      Facts(After(before));
      ControlStep(After(before), last);
    } else {
      StartControl();
    }
  }

  lemma StartControl()
    ensures ControlOk(START.control)
  {
  }

  lemma {:induction false} ControlStep(s: System, step: Step)
    requires ControlOk(s.control)
    requires ReaderOk(s.control, s.reader) && WorkerOk(s.control, s.worker) && WriterOk(s.control, s.writer)
    ensures ControlOk(Next(s, step).control)
  {
    hide ControlOk, ReaderOk, WorkerOk, WriterOk, ReaderNext, WorkerNext, WriterNext, InterrupterNext;
    match step
    case ReaderStep(input) => ReaderControl(s, input);
    case WorkerStep(timeout) => WorkerControl(s, timeout);
    case WriterStep(fails) => WriterControl(s, fails);
    case InterrupterStep => InterrupterControl(s);
  }

  /** Nothing is dropped while the adapter runs, unless the thread that dropped it is about to stop it. */
  lemma {:induction false} DropsOnlyAfterStop(steps: seq<Step>)
    ensures DropsOk(After(steps))
  {
    hide After, Inv, DropsOk;
    Reachable(steps);
    Facts(After(steps));
  }

  lemma Facts(s: System)
    requires Inv(s)
    ensures Partition(s) && !s.panicked && |s.control.calls| <= MAXIMUM_OUTSTANDING
    ensures ReaderOk(s.control, s.reader) && WorkerOk(s.control, s.worker) && WriterOk(s.control, s.writer)
    ensures forall id :: Some(id) in s.outputs ==> Awaiting(s.control, id)
    ensures WakeOk(s) && InterruptOk(s.control) && DropsOk(s)
  {
    hide Partition;
  }

  // ---- Retirement ----

  /** Registrations of the id less removals of it. */
  function Balance(log: seq<Event>, id: Id): int
    decreases |log|
  {
    if log == [] then 0
    else
      var last := log[|log| - 1];
      Balance(log[..|log| - 1], id)
      + (match last case DidRegister(i) => (if i == id then 1 else 0)
         case DidDiscard(i) => (if i == id then -1 else 0)
         case DidRetire(i) => (if i == id then -1 else 0))
  }

  lemma Logged(log: seq<Event>, e: Event, id: Id)
    ensures Balance(log + [e], id) ==
            Balance(log, id) + (match e case DidRegister(i) => (if i == id then 1 else 0)
                                        case DidDiscard(i) => (if i == id then -1 else 0)
                                        case DidRetire(i) => (if i == id then -1 else 0))
  {
    assert (log + [e])[..|log|] == log;
  }

  lemma {:induction false} ReaderBalance(s: System, input: Input, id: Id)
    requires Balance(s.log, id) == One(id in s.control.calls)
    ensures Balance(ReaderNext(s, input).log, id) == One(id in ReaderNext(s, input).control.calls)
  {
    hide AfterStop, AfterCancel, AfterRegister, WithStage, Balance;
    match s.reader
    case Registering(i, tool) => RegisterBalance(s, i, tool, id);
    case Cancelling(i) => CancelCalls(s.control, i);
    case EmitFailed => StopCalls(s.control);
    case Ending => StopCalls(s.control);
    case _ => QuietBalance(s, input, id);
  }

  lemma {:induction false} QuietBalance(s: System, input: Input, id: Id)
    requires Balance(s.log, id) == One(id in s.control.calls)
    requires !s.reader.Registering? && !s.reader.Cancelling? && !s.reader.EmitFailed? && !s.reader.Ending?
    ensures Balance(ReaderNext(s, input).log, id) == One(id in ReaderNext(s, input).control.calls)
  {
    hide AfterStop, AfterCancel, AfterRegister, Balance;
  }

  lemma RegisterBalance(s: System, i: Id, tool: bool, id: Id)
    requires Balance(s.log, id) == One(id in s.control.calls) && s.reader == Registering(i, tool)
    ensures Balance(ReaderNext(s, Notification).log, id) == One(id in ReaderNext(s, Notification).control.calls)
  {
    hide Balance;
    Logged(s.log, DidRegister(i), id);
  }

  lemma BeginBalance(s: System, i: Id, id: Id)
    requires Balance(s.log, id) == One(id in s.control.calls) && s.worker == Beginning(i)
    ensures Balance(WorkerNext(s, false).log, id) == One(id in WorkerNext(s, false).control.calls)
  {
    hide Balance;
    Logged(s.log, DidDiscard(i), id);
  }

  lemma EndBalance(s: System, i: Id, id: Id)
    requires Balance(s.log, id) == One(id in s.control.calls) && s.worker == Executing(i)
    ensures Balance(WorkerNext(s, false).log, id) == One(id in WorkerNext(s, false).control.calls)
  {
    hide Balance;
    Logged(s.log, DidDiscard(i), id);
  }

  lemma {:induction false} WorkerBalance(s: System, timeout: bool, id: Id)
    requires Balance(s.log, id) == One(id in s.control.calls)
    ensures Balance(WorkerNext(s, timeout).log, id) == One(id in WorkerNext(s, timeout).control.calls)
  {
    hide AfterStop, Balance, AfterBegin, AfterEnd;
    if s.worker.Beginning? {
      BeginBalance(s, s.worker.id, id);
    } else if s.worker.Executing? {
      EndBalance(s, s.worker.id, id);
    } else {
      StopCalls(s.control);
    }
  }

  /** The writer removes an id without looking: only the invariant says it is there. */
  lemma WriterBalance(s: System, fails: bool, id: Id)
    requires Balance(s.log, id) == One(id in s.control.calls) && WriterOk(s.control, s.writer)
    ensures Balance(WriterNext(s, fails).log, id) == One(id in WriterNext(s, fails).control.calls)
  {
    hide AfterStop, Balance;
    StopCalls(s.control);
    if s.writer.Retiring? {
      Logged(s.log, DidRetire(s.writer.id), id);
    }
  }

  lemma {:induction false} KeepsBalance(s: System, step: Step, id: Id)
    requires Balance(s.log, id) == One(id in s.control.calls) && WriterOk(s.control, s.writer)
    ensures Balance(Next(s, step).log, id) == One(id in Next(s, step).control.calls)
  {
    hide ReaderNext, WorkerNext, WriterNext, Balance;
    match step
    case ReaderStep(input) => ReaderBalance(s, input, id);
    case WorkerStep(timeout) => WorkerBalance(s, timeout, id);
    case WriterStep(fails) => WriterBalance(s, fails, id);
    case InterrupterStep =>
  }

  /** Each registration is retired at most once, and no removal ever finds the id missing. */
  lemma {:induction false} RetiredAtMostOnce(steps: seq<Step>, id: Id)
    ensures Balance(After(steps).log, id) == One(id in After(steps).control.calls)
    decreases |steps|
  {
    hide Next, Balance, Inv;
    if steps == [] {
      EmptyBalance(id);
    } else {
      var before := steps[..|steps| - 1];
      RetiredAtMostOnce(before, id);
      Reachable(before);
      Facts(After(before));
      KeepsBalance(After(before), steps[|steps| - 1], id);
    }
  }

  lemma EmptyBalance(id: Id)
    ensures Balance([], id) == 0
  {
  }
}
