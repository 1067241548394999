/**
 A pinned read session: the boundary is checked inside the snapshot and again after encoding, and the first restart
 failure is latched. What that gives a client over a run of the ledger.
 */
module ReadSessions {
  import opened Wrappers
  import opened Bytes
  import opened Ledger
  import opened Runs

  datatype RestartReason = DatabaseFileChanged | StoreOrSchemaChanged

  datatype SessionError = Unauthorized | StorageBusy | Failed | RestartNeeded(reason: RestartReason)

  /** One look at the database: is the path still the pinned file, and what reading its state gave. */
  datatype StateRead = Found(state: Option<StoreState>) | Busy | InterruptedRead

  datatype Probe = Probe(samePath: bool, read: StateRead)

  /** A probe of a committed state through the unchanged file. */
  function ProbeOf(db: Db): Probe {
    Probe(true, Found(StateOf(db)))
  }

  /** `check_boundary`. */
  function Boundary(pinned: StoreState, latched: Option<RestartReason>, probe: Probe): Outcome<SessionError> {
    if latched.Some? then Fail(RestartNeeded(latched.value))
    else if !probe.samePath then Fail(RestartNeeded(DatabaseFileChanged))
    else
      match probe.read
      case InterruptedRead => Fail(Failed)
      case Busy => Fail(StorageBusy)
      case Found(state) => if state == Some(pinned) then Pass else Fail(RestartNeeded(StoreOrSchemaChanged))
  }

  class ReadSession {
    const pinned: StoreState
    var restartReason: Option<RestartReason>

    constructor (state: StoreState)
      ensures pinned == state && restartReason == None
    {
      pinned := state;
      restartReason := None;
    }

    /** The error reported is the earliest: authorization, the check before, the delivery, the check after. */
    predicate FirstFailure(latched: Option<RestartReason>, authorized: bool, first: Probe,
                           delivery: Result<Data, SessionError>, second: Probe, r: Result<Data, SessionError>)
    {
      var before, after := Boundary(pinned, latched, first), Boundary(pinned, latched, second);
      && (r.Ok? ==> r == delivery)
      && (!authorized ==> r == Err(Unauthorized))
      && (authorized && before.Fail? ==> r == Err(before.error))
      && (authorized && before.Pass? && delivery.Err? ==> r == delivery)
      && (authorized && before.Pass? && delivery.Ok? && after.Fail? ==> r == Err(after.error))
    }

    /** `execute`: authorize, check, read and encode, check again, then latch. */
    method Execute(authorized: bool, first: Probe, delivery: Result<Data, SessionError>, second: Probe)
      returns (r: Result<Data, SessionError>)
      modifies this
      ensures r.Ok? <==>
                && authorized && delivery.Ok?
                && Boundary(pinned, old(restartReason), first).Pass?
                && Boundary(pinned, old(restartReason), second).Pass?
      ensures FirstFailure(old(restartReason), authorized, first, delivery, second, r)
      ensures authorized && old(restartReason).Some? ==> r == Err(RestartNeeded(old(restartReason).value))
      ensures restartReason == if r.Err? && r.error.RestartNeeded? then Some(r.error.reason) else old(restartReason)
    {
      r := ExecuteChecked(authorized, first, delivery, second);
      if r.Err? && r.error.RestartNeeded? {
        restartReason := Some(r.error.reason);
      }
    }

    method ExecuteChecked(authorized: bool, first: Probe, delivery: Result<Data, SessionError>, second: Probe)
      returns (r: Result<Data, SessionError>)
      ensures r.Ok? <==>
                && authorized && delivery.Ok?
                && Boundary(pinned, restartReason, first).Pass? && Boundary(pinned, restartReason, second).Pass?
      ensures FirstFailure(restartReason, authorized, first, delivery, second, r)
    {
      if !authorized {
        return Err(Unauthorized);
      }
      var before := Boundary(pinned, restartReason, first);
      if before.Fail? {
        return Err(before.error);
      }
      if delivery.Err? {
        return delivery;
      }
      var after := Boundary(pinned, restartReason, second);
      if after.Fail? {
        return Err(after.error);
      }
      return delivery;
    }
  }

  /**
   One boundary check by name: a latched reason is repeated, a replaced file comes before anything read from it, an
   interrupted or busy read is an error of its own, and only the pinned state passes.
   */
  lemma BoundaryDecided(pinned: StoreState, latched: Option<RestartReason>, probe: Probe)
    ensures Boundary(pinned, latched, probe) ==
            match (latched, probe)
            case (Some(reason), _) => Fail(RestartNeeded(reason))
            case (None, Probe(false, _)) => Fail(RestartNeeded(DatabaseFileChanged))
            case (None, Probe(true, InterruptedRead)) => Fail(Failed)
            case (None, Probe(true, Busy)) => Fail(StorageBusy)
            case (None, Probe(true, Found(None))) => Fail(RestartNeeded(StoreOrSchemaChanged))
            case (None, Probe(true, Found(Some(StoreState(identity, generation))))) =>
              if identity == pinned.identity && generation == pinned.generation then Pass
              else Fail(RestartNeeded(StoreOrSchemaChanged))
  {
  }

  /** A response whose two checks passed spans no restore: between them the store only evolved. */
  lemma DeliveredWithinGeneration(h: seq<Db>, actions: seq<Action>, i: nat, j: nat, pinned: StoreState)
    requires Run(h, actions) && i <= j < |h|
    requires Boundary(pinned, None, ProbeOf(h[i])).Pass? && Boundary(pinned, None, ProbeOf(h[j])).Pass?
    ensures Evolves(h[i], h[j])
    ensures forall k :: i <= k < j ==> !actions[k].DoRestore?
  {
    GenerationEvolves(h, actions, i, j);
    forall k | i <= k < j ensures !actions[k].DoRestore? {
      RunStep(h, actions, k);
      assert Generation(h[k]) == Generation(h[k + 1]);
    }
  }

  /** Latching loses nothing: once a restore has moved the store on, the boundary check fails in every later state. */
  lemma RestartIsForever(h: seq<Db>, actions: seq<Action>, i: nat, k: nat, j: nat, pinned: StoreState)
    requires Run(h, actions) && i <= k < j < |h| && actions[k].DoRestore? && StateOf(h[i]) == Some(pinned)
    ensures Boundary(pinned, None, ProbeOf(h[j])) == Fail(RestartNeeded(StoreOrSchemaChanged))
  {
    RunStep(h, actions, k);
    if Generation(h[i]) == Generation(h[j]) {
      GenerationEvolves(h, actions, i, j);
    }
  }
}
