/**
 The state the MCP adapter's threads share under one lock. `Control` is its value and the functions are the lock
 sections; the class is the object the threads update in place.
 */
module McpControl {
  import opened Wrappers

  /** A JSON-RPC request id. */
  type Id = string

  datatype Stage = Immediate | Queued | Active | Finished

  datatype Outstanding = Outstanding(stage: Stage, cancelled: bool)

  /**
   `wake` is the one-slot wake channel; `interrupted` says whether the running call has been interrupted; `hits`
   records, for every use of the SQLite interrupt handle, which call was active.
   */
  datatype Control = Control(
    calls: map<Id, Outstanding>, active: Option<Id>, stopped: bool, wake: bool, interrupted: bool,
    hits: seq<Option<Id>>)

  const MAXIMUM_OUTSTANDING := 32

  const INITIAL := Control(map[], None, false, false, false, [])

  predicate CancelledCall(c: Control, id: Id) {
    id in c.calls && c.calls[id].cancelled
  }

  /** The running call has to be interrupted. */
  predicate NeedsInterrupt(c: Control) {
    c.active.Some? && (c.stopped || CancelledCall(c, c.active.value))
  }

  function Interrupted(c: Control): Control {
    c.(interrupted := true, hits := c.hits + [c.active])
  }

  /** `stop`. */
  function AfterStop(c: Control): Control {
    var stopped := c.(stopped := true);
    (if stopped.active.Some? then Interrupted(stopped) else stopped).(wake := true)
  }

  /** The lock section of `cancel`. */
  function AfterCancel(c: Control, id: Id): Control {
    if id !in c.calls || !(c.calls[id].stage.Queued? || c.calls[id].stage.Active?) then c
    else
      var marked := c.(calls := c.calls[id := c.calls[id].(cancelled := true)]);
      if c.active == Some(id) then Interrupted(marked).(wake := true) else marked
  }

  datatype Registration = Registered | Duplicate | TooMany

  /** The registration section of `reader`. */
  function AfterRegister(c: Control, id: Id): (Control, Registration) {
    if id in c.calls then (c, Duplicate)
    else if |c.calls| >= MAXIMUM_OUTSTANDING then (c, TooMany)
    else (c.(calls := c.calls[id := Outstanding(Immediate, false)]), Registered)
  }

  /** `get_mut(id).unwrap().stage = stage`. */
  function WithStage(c: Control, id: Id, stage: Stage): Control
    requires id in c.calls
  {
    c.(calls := c.calls[id := c.calls[id].(stage := stage)])
  }

  /** `calls.remove(id)`. */
  function Without(c: Control, id: Id): Control {
    c.(calls := c.calls - {id})
  }

  datatype Beginning = Halted | Skipped | Begun

  /** The worker's section before a job runs. */
  function AfterBegin(c: Control, id: Id): (Control, Beginning)
    requires id in c.calls
  {
    if c.stopped then (c, Halted)
    else if c.calls[id].cancelled then (Without(c, id), Skipped)
    else (WithStage(c, id, Active).(active := Some(id), interrupted := false), Begun)
  }

  /** The worker's section after a job ran; true when its result must be discarded. */
  function AfterEnd(c: Control, id: Id): (Control, bool)
    requires id in c.calls
  {
    var idle := WithStage(c, id, Finished).(active := None, interrupted := false);
    if c.calls[id].cancelled || c.stopped then (Without(idle, id), true) else (idle, false)
  }

  datatype Inspection = Return | Rest | Repeat

  /** One pass of the interrupter's inner loop. */
  function AfterInspect(c: Control): (Control, Inspection) {
    if c.stopped && c.active.None? then (c, Return)
    else if !NeedsInterrupt(c) then (c, Rest)
    else (Interrupted(c), Repeat)
  }

  // ---- What the lock sections mean ----

  predicate InStage(c: Control, id: Id, stage: Stage) {
    id in c.calls && c.calls[id].stage == stage
  }

  /** Only calls that still wait or run can be cancelled. */
  predicate Cancellable(c: Control, id: Id) {
    InStage(c, id, Queued) || InStage(c, id, Active)
  }

  /**
   What every section keeps: the bound on requests, one active call and only it in stage Active, cancellation only of
   calls that wait or run, and interruption only of a call that has to be interrupted.
   */
  ghost predicate ControlOk(c: Control) {
    && |c.calls| <= MAXIMUM_OUTSTANDING
    && (c.active.Some? ==> InStage(c, c.active.value, Active))
    && (forall id :: id in c.calls && c.calls[id].stage.Active? ==> c.active == Some(id))
    && (forall id :: id in c.calls && c.calls[id].cancelled ==> c.calls[id].stage.Queued? || c.calls[id].stage.Active?)
    && (c.interrupted ==> NeedsInterrupt(c))
  }

  /** Every other call is outstanding as it was. */
  ghost predicate Except(c: Control, d: Control, id: Id) {
    forall i :: i != id ==> (i in d.calls <==> i in c.calls) && (i in c.calls ==> d.calls[i] == c.calls[i])
  }

  lemma SizeOfKeys(c: Control, d: Control)
    requires d.calls.Keys <= c.calls.Keys
    ensures |d.calls| <= |c.calls|
  {
    Subset(d.calls.Keys, c.calls.Keys);
    assert |d.calls| == |d.calls.Keys| && |c.calls| == |c.calls.Keys|;
  }

  lemma {:induction false} Subset<T>(a: set<T>, b: set<T>)
    requires a <= b
    ensures |a| <= |b|
    decreases a
  {
    if a != {} {
      var x :| x in a;
      Subset(a - {x}, b - {x});
    }
  }

  /** Stopping touches no call and interrupts the running one, leaving a token for the interrupter. */
  lemma StopKeeps(c: Control)
    requires ControlOk(c)
    ensures var d := AfterStop(c);
            && ControlOk(d) && d.stopped && d.wake && d.calls == c.calls && d.active == c.active
            && (d.active.Some? ==> d.interrupted && d.hits == c.hits + [d.active])
            && (d.active.None? ==> !d.interrupted && d.hits == c.hits)
  {
  }

  lemma CancelMarks(c: Control, id: Id)
    ensures var d := AfterCancel(c, id);
            && d.calls.Keys == c.calls.Keys
            && (forall i :: i in c.calls ==> d.calls[i].stage == c.calls[i].stage)
            && (forall i :: CancelledCall(d, i) <==> CancelledCall(c, i) || (i == id && Cancellable(c, id)))
  {
  }

  /** Cancelling retires nothing, marks at most the named call, and interrupts only if that call runs. */
  lemma CancelKeeps(c: Control, id: Id)
    requires ControlOk(c)
    ensures var d := AfterCancel(c, id);
            && ControlOk(d) && d.calls.Keys == c.calls.Keys && d.active == c.active && d.stopped == c.stopped
            && (forall i :: i in c.calls ==> d.calls[i].stage == c.calls[i].stage)
            && (forall i :: CancelledCall(d, i) <==> CancelledCall(c, i) || (i == id && Cancellable(c, id)))
            && (if c.active == Some(id) then d.interrupted && d.wake && d.hits == c.hits + [Some(id)]
                else d.interrupted == c.interrupted && d.wake == c.wake && d.hits == c.hits)
  {
    CancelMarks(c, id);
    if Cancellable(c, id) {
      SizeOfKeys(c, AfterCancel(c, id));
    }
  }

  /** A registered call is new, immediate and uncancelled; a refused one changes nothing. */
  lemma RegisterKeeps(c: Control, id: Id)
    requires ControlOk(c)
    ensures var (d, r) := AfterRegister(c, id);
            && ControlOk(d) && Except(c, d, id)
            && (r.Duplicate? <==> id in c.calls)
            && (r.Registered? <==> id !in c.calls && |c.calls| < MAXIMUM_OUTSTANDING)
            && (r.Registered? ==> InStage(d, id, Immediate) && !CancelledCall(d, id))
            && (!r.Registered? ==> d == c)
  {
  }

  /** Moving an uncancelled call between the stages in which it does not run. */
  lemma StageKeeps(c: Control, id: Id, stage: Stage)
    requires ControlOk(c) && id in c.calls && !c.calls[id].cancelled && !c.calls[id].stage.Active? && !stage.Active?
    ensures ControlOk(WithStage(c, id, stage))
  {
    SizeOfKeys(c, WithStage(c, id, stage));
  }

  lemma RetireKeeps(c: Control, id: Id)
    requires ControlOk(c) && c.active != Some(id)
    ensures ControlOk(Without(c, id)) && Except(c, Without(c, id), id) && id !in Without(c, id).calls
  {
    SizeOfKeys(c, Without(c, id));
  }

  /** A queued call either runs, uncancelled and alone, or is retired because it was cancelled, or waits for the end. */
  lemma BeginKeeps(c: Control, id: Id)
    requires ControlOk(c) && InStage(c, id, Queued) && c.active.None?
    ensures var (d, r) := AfterBegin(c, id);
            && ControlOk(d) && Except(c, d, id) && !NeedsInterrupt(d)
            && (r.Halted? <==> c.stopped) && (r.Skipped? <==> !c.stopped && CancelledCall(c, id))
            && (r.Begun? ==> d.active == Some(id) && !CancelledCall(d, id))
            && (!r.Begun? ==> d.active.None?)
            && (id in d.calls <==> !r.Skipped?)
  {
    if !c.stopped {
      SizeOfKeys(c, AfterBegin(c, id).0);
    }
  }

  /**
   After its run a call is retired exactly if it was cancelled or the adapter stopped; nothing is left to interrupt.
   */
  lemma EndKeeps(c: Control, id: Id)
    requires ControlOk(c) && c.active == Some(id)
    ensures var (d, discard) := AfterEnd(c, id);
            && ControlOk(d) && Except(c, d, id) && d.active.None? && !d.interrupted
            && (discard <==> NeedsInterrupt(c))
            && (id in d.calls <==> !discard) && (!discard ==> InStage(d, id, Finished) && !CancelledCall(d, id))
  {
    SizeOfKeys(c, AfterEnd(c, id).0);
  }

  /** The interrupter interrupts exactly the calls that have to be, and leaves for good only when none can follow. */
  lemma InspectKeeps(c: Control)
    requires ControlOk(c)
    ensures var (d, r) := AfterInspect(c);
            && ControlOk(d) && d.calls == c.calls && d.active == c.active && d.stopped == c.stopped && d.wake == c.wake
            && (r.Return? <==> c.stopped && c.active.None?) && (r.Repeat? <==> NeedsInterrupt(c))
            && d.interrupted == (c.interrupted || NeedsInterrupt(c))
            && d.hits == c.hits + (if NeedsInterrupt(c) then [c.active] else [])
  {
  }

  // ---- The shared object ----

  class SharedControl {
    var calls: map<Id, Outstanding>
    var active: Option<Id>
    var stopped: bool
    var wake: bool
    var interrupted: bool
    var hits: seq<Option<Id>>

    function View(): Control
      reads this
    {
      Control(calls, active, stopped, wake, interrupted, hits)
    }

    ghost predicate Valid()
      reads this
    {
      ControlOk(View())
    }

    constructor ()
      ensures View() == INITIAL && Valid()
    {
      calls, active, stopped, wake, interrupted, hits := map[], None, false, false, false, [];
    }

    /** `interrupt.interrupt()`. */
    method Interrupt()
      modifies this`interrupted, this`hits
      ensures interrupted && hits == old(hits) + [active]
    {
      hits := hits + [active];
      interrupted := true;
    }

    /** No call is retired or marked; a running one is interrupted, and a token is left for the interrupter. */
    method Stop()
      requires Valid()
      modifies this
      ensures Valid() && View() == AfterStop(old(View()))
      ensures stopped && wake && calls == old(calls) && active == old(active)
      ensures hits == old(hits) + (if active.Some? then [active] else [])
    {
      hide ControlOk;
      StopKeeps(View());
      stopped := true;
      if active.Some? {
        Interrupt();
      }
      wake := true;
    }

    /** Outstanding calls and their stages stay; only a call that waits or runs becomes cancelled. */
    method Cancel(id: Id)
      requires Valid()
      modifies this
      ensures Valid() && View() == AfterCancel(old(View()), id)
      ensures calls.Keys == old(calls).Keys && active == old(active) && stopped == old(stopped)
      ensures forall i :: CancelledCall(View(), i) <==>
                            old(CancelledCall(View(), i)) || (i == id && old(Cancellable(View(), id)))
      ensures hits == old(hits) + (if active == Some(id) then [active] else [])
    {
      hide ControlOk;
      CancelKeeps(View(), id);
      if id !in calls {
        return;
      }
      var call := calls[id];
      if call.stage.Queued? || call.stage.Active? {
        calls := calls[id := call.(cancelled := true)];
        if active == Some(id) {
          Interrupt();
          wake := true;
        }
      }
    }

    /** At most 32 ids are ever outstanding, each once. */
    method Register(id: Id) returns (r: Registration)
      requires Valid()
      modifies this`calls
      ensures Valid() && (View(), r) == AfterRegister(old(View()), id)
      ensures r.Duplicate? <==> id in old(calls)
      ensures r.Registered? <==> id !in old(calls) && |old(calls)| < MAXIMUM_OUTSTANDING
      ensures calls.Keys == old(calls).Keys + (if r.Registered? then {id} else {})
    {
      hide ControlOk;
      RegisterKeeps(View(), id);
      if id in calls {
        return Duplicate;
      }
      if |calls| >= MAXIMUM_OUTSTANDING {
        return TooMany;
      }
      calls := calls[id := Outstanding(Immediate, false)];
      return Registered;
    }

    /** The reader moves a call that cannot run: queued, or finished because the queue was full. */
    method SetStage(id: Id, stage: Stage)
      requires Valid() && id in calls && !calls[id].cancelled && !calls[id].stage.Active? && !stage.Active?
      modifies this`calls
      ensures Valid() && View() == WithStage(old(View()), id, stage)
      ensures Except(old(View()), View(), id) && InStage(View(), id, stage) && !CancelledCall(View(), id)
    {
      StageKeeps(View(), id, stage);
      calls := calls[id := calls[id].(stage := stage)];
    }

    method Retire(id: Id)
      requires Valid() && active != Some(id)
      modifies this`calls
      ensures Valid() && View() == Without(old(View()), id)
      ensures Except(old(View()), View(), id) && id !in calls
    {
      RetireKeeps(View(), id);
      calls := calls - {id};
    }

    /** The call that begins is uncancelled, the only active one, and needs no interrupt. */
    method Begin(id: Id) returns (r: Beginning)
      requires Valid() && InStage(View(), id, Queued) && active.None?
      modifies this
      ensures Valid() && (View(), r) == AfterBegin(old(View()), id)
      ensures Except(old(View()), View(), id) && (id in calls <==> !r.Skipped?) && !NeedsInterrupt(View())
      ensures r.Begun? <==> active == Some(id)
      ensures r.Halted? <==> stopped
    {
      hide ControlOk;
      BeginKeeps(View(), id);
      if stopped {
        return Halted;
      }
      if calls[id].cancelled {
        Retire(id);
        return Skipped;
      }
      calls := calls[id := calls[id].(stage := Active)];
      active := Some(id);
      interrupted := false;
      return Begun;
    }

    /** The result is discarded, and the call retired, exactly when the run had to be interrupted. */
    method End(id: Id) returns (discard: bool)
      requires Valid() && active == Some(id)
      modifies this
      ensures Valid() && (View(), discard) == AfterEnd(old(View()), id)
      ensures discard <==> old(NeedsInterrupt(View()))
      ensures active.None? && !interrupted && Except(old(View()), View(), id) && (id in calls <==> !discard)
    {
      assert id in calls;
      hide ControlOk;
      EndKeeps(View(), id);
      active := None;
      interrupted := false;
      calls := calls[id := calls[id].(stage := Finished)];
      discard := calls[id].cancelled || stopped;
      if discard {
        calls := calls - {id};
      }
    }

    /** An interrupt is issued exactly when the active call has to be interrupted, and for that call. */
    method Inspect() returns (r: Inspection)
      requires Valid()
      modifies this`interrupted, this`hits
      ensures Valid() && (View(), r) == AfterInspect(old(View()))
      ensures r.Repeat? <==> NeedsInterrupt(View())
      ensures r.Return? <==> stopped && active.None?
      ensures hits == old(hits) + (if NeedsInterrupt(View()) then [active] else [])
    {
      hide ControlOk;
      InspectKeeps(View());
      if stopped && active.None? {
        return Return;
      }
      var needs := active.Some? && (stopped || (active.value in calls && calls[active.value].cancelled));
      if !needs {
        return Rest;
      }
      Interrupt();
      return Repeat;
    }
  }
}
