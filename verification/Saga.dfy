/**
 * The saga orchestrator (src/service/saga.rs): its bookkeeping, and the rollback it promises
 * once its actions run on ledger accounts. SagaSpec gives each call's effect, and module Saga
 * performs it in place. The caller runs the actions, so the driver in SagaSpec stands for it.
 */
module SagaSpec {
  import opened Wrappers
  import opened AccountSpec

  type SagaId = nat

  datatype SagaStatus = Pending | InProgress | Completed | Compensating | Failed | TimedOut

  datatype SagaAction =
    | OnAccount(account: AccountId, operation: Operation)
    | ExternalCall(service: string, endpoint: string, payload: string)
    | NoOp

  datatype SagaStep = SagaStep(name: string, action: SagaAction, compensation: SagaAction)
  datatype SagaDefinition = SagaDefinition(name: string, steps: seq<SagaStep>)

  datatype SagaInstance = SagaInstance(id: SagaId, definition: string, status: SagaStatus, currentStep: nat,
                                       completedSteps: seq<nat>, error: Option<string>)

  datatype SagaError =
    | UnknownDefinition(name: string)
    | NoSteps
    | SagaNotFound(id: SagaId)
    | SagaNotActive(status: SagaStatus)
    | AllStepsCompleted

  datatype Orchestrator = Orchestrator(definitions: map<string, SagaDefinition>, active: map<SagaId, SagaInstance>,
                                       completed: seq<SagaInstance>, nextId: nat)

  /** Every active saga has a definition, has steps left, and has completed exactly the steps
      before its current one, in order. */
  predicate InstanceOk(definitions: map<string, SagaDefinition>, i: SagaInstance) {
    && i.definition in definitions
    && i.currentStep < |definitions[i.definition].steps|
    && |i.completedSteps| == i.currentStep
    && forall k :: 0 <= k < i.currentStep ==> i.completedSteps[k] == k
  }

  predicate ActiveOk(o: Orchestrator) {
    forall id :: id in o.active ==> id < o.nextId && o.active[id].id == id && InstanceOk(o.definitions, o.active[id])
  }

  /** Definitions are replaced but never removed, so every active saga's name stays known. */
  ghost predicate Known(o: Orchestrator) {
    forall id :: id in o.active ==> o.active[id].definition in o.definitions
  }

  ghost predicate Valid(o: Orchestrator) {
    && ActiveOk(o)
    && forall i :: 0 <= i < |o.completed| ==>
         && o.completed[i].status == Completed
         && |o.completed[i].completedSteps| == o.completed[i].currentStep
         && forall k :: 0 <= k < o.completed[i].currentStep ==> o.completed[i].completedSteps[k] == k
  }

  // ----- calls -----

  function Register(o: Orchestrator, d: SagaDefinition): Orchestrator {
    o.(definitions := o.definitions[d.name := d])
  }

  function Start(o: Orchestrator, name: string): (Orchestrator, Result<SagaId, SagaError>) {
    if name !in o.definitions then (o, Failure(UnknownDefinition(name)))
    else if o.definitions[name].steps == [] then (o, Failure(NoSteps))
    else
      var i := SagaInstance(o.nextId, name, Pending, 0, [], None);
      (o.(active := o.active[o.nextId := i], nextId := o.nextId + 1), Success(o.nextId))
  }

  function NextAction(o: Orchestrator, id: SagaId): Result<(nat, SagaAction), SagaError>
    requires id in o.active ==> o.active[id].definition in o.definitions
  {
    if id !in o.active then Failure(SagaNotFound(id)) else
      var i := o.active[id];
      if i.status != Pending && i.status != InProgress then Failure(SagaNotActive(i.status)) else
        var steps := o.definitions[i.definition].steps;
        if i.currentStep >= |steps| then Failure(AllStepsCompleted)
        else Success((i.currentStep, steps[i.currentStep].action))
  }

  function StepCompleted(i: SagaInstance): SagaInstance {
    i.(completedSteps := i.completedSteps + [i.currentStep], currentStep := i.currentStep + 1, status := InProgress)
  }

  /** There is no status check: a failed saga is resumed if its caller reports a success. */
  function StepSucceeded(o: Orchestrator, id: SagaId): (Orchestrator, Result<bool, SagaError>)
    requires id in o.active ==> o.active[id].definition in o.definitions
  {
    if id !in o.active then (o, Failure(SagaNotFound(id))) else
      var i := StepCompleted(o.active[id]);
      if i.currentStep >= |o.definitions[i.definition].steps| then
        (o.(active := o.active - {id}, completed := o.completed + [i.(status := Completed)]), Success(true))
      else (o.(active := o.active[id := i]), Success(false))
  }

  function Compensations(steps: seq<SagaStep>, completedSteps: seq<nat>): seq<SagaAction>
    requires forall k :: 0 <= k < |completedSteps| ==> completedSteps[k] < |steps|
  {
    if completedSteps == [] then [] else
      var last := |completedSteps| - 1;
      [steps[completedSteps[last]].compensation] + Compensations(steps, completedSteps[..last])
  }

  /** Every completed step of the saga is still a step of its definition; otherwise collecting
      the compensations indexes past the end and panics. */
  predicate CanCompensate(o: Orchestrator, id: SagaId)
    requires id in o.active ==> o.active[id].definition in o.definitions
  {
    id in o.active ==>
      var i := o.active[id];
      forall k :: 0 <= k < |i.completedSteps| ==> i.completedSteps[k] < |o.definitions[i.definition].steps|
  }

  /** The failure is recorded before the compensations are collected. */
  function FailureRecorded(o: Orchestrator, id: SagaId, error: string): Orchestrator {
    if id !in o.active then o
    else o.(active := o.active[id := o.active[id].(status := Compensating, error := Some(error))])
  }

  function StepFailed(o: Orchestrator, id: SagaId, error: string): (Orchestrator, Result<seq<SagaAction>, SagaError>)
    requires id in o.active ==> o.active[id].definition in o.definitions
    requires CanCompensate(o, id)
  {
    (FailureRecorded(o, id, error),
     if id !in o.active then Failure(SagaNotFound(id))
     else Success(Compensations(o.definitions[o.active[id].definition].steps, o.active[id].completedSteps)))
  }

  function CompensationComplete(o: Orchestrator, id: SagaId): Orchestrator {
    if id !in o.active then o else o.(active := o.active[id := o.active[id].(status := Failed)])
  }

  // ----- bookkeeping over runs -----

  datatype Event =
    | RegisterEvent(definition: SagaDefinition)
    | StartEvent(name: string)
    | SucceededEvent(id: SagaId)
    | FailedEvent(id: SagaId, error: string)
    | CompensatedEvent(id: SagaId)

  /** A name in use may be registered again only with more steps than any active saga of that
      name has completed; otherwise such a saga has no step left to run. */
  ghost predicate Admissible(o: Orchestrator, e: Event) {
    e.RegisterEvent? ==>
      forall id :: id in o.active && o.active[id].definition == e.definition.name ==>
        o.active[id].currentStep < |e.definition.steps|
  }

  function Handle(o: Orchestrator, e: Event): Orchestrator
    requires ActiveOk(o)
  {
    assert forall id :: id in o.active ==> InstanceOk(o.definitions, o.active[id]);
    match e
    case RegisterEvent(d) => Register(o, d)
    case StartEvent(name) => Start(o, name).0
    case SucceededEvent(id) => StepSucceeded(o, id).0
    case FailedEvent(id, error) => StepFailed(o, id, error).0
    case CompensatedEvent(id) => CompensationComplete(o, id)
  }

  lemma HandleKeepsValid(o: Orchestrator, e: Event)
    requires Valid(o)
    ensures Valid(Handle(o, e)) <==> Admissible(o, e)
  {
    if e.RegisterEvent? && !Admissible(o, e) {
      var id :| id in o.active && o.active[id].definition == e.definition.name
                && o.active[id].currentStep >= |e.definition.steps|;
      assert !InstanceOk(Handle(o, e).definitions, Handle(o, e).active[id]);
    }
  }

  /** While the completed steps are those before the current one, collecting the compensations
      panics exactly when the definition has become shorter than what has been completed. */
  lemma PanicIsExact(o: Orchestrator, id: SagaId)
    requires id in o.active && o.active[id].definition in o.definitions
    requires |o.active[id].completedSteps| == o.active[id].currentStep
    requires forall k :: 0 <= k < o.active[id].currentStep ==> o.active[id].completedSteps[k] == k
    ensures CanCompensate(o, id) <==> o.active[id].currentStep <= |o.definitions[o.active[id].definition].steps|
  {
    var i := o.active[id];
    if |o.definitions[i.definition].steps| < i.currentStep {
      assert i.completedSteps[i.currentStep - 1] >= |o.definitions[i.definition].steps|;
    }
  }

  /** It does happen: two steps, one of them completed, and then no steps under the same name. */
  lemma StepFailedCanPanic(name: string, first: SagaStep, second: SagaStep)
    ensures
      var o0 := Register(Orchestrator(map[], map[], [], 0), SagaDefinition(name, [first, second]));
      var o1 := Start(o0, name).0;
      && 0 in o1.active && o1.active[0].definition in o1.definitions
      && var o2 := Register(StepSucceeded(o1, 0).0, SagaDefinition(name, []));
         0 in o2.active && o2.active[0].definition in o2.definitions && !CanCompensate(o2, 0)
  {
    var o0 := Register(Orchestrator(map[], map[], [], 0), SagaDefinition(name, [first, second]));
    var o2 := Register(StepSucceeded(Start(o0, name).0, 0).0, SagaDefinition(name, []));
    PanicIsExact(o2, 0);
  }

  ghost predicate Reached(o: Orchestrator, events: seq<Event>, o': Orchestrator)
    decreases |events|
  {
    if events == [] then o' == o else
      ActiveOk(o) && Admissible(o, events[0]) && Reached(Handle(o, events[0]), events[1..], o')
  }

  /** Over any run of calls, every active saga's completed steps are exactly 0, 1, ... up to its
      current step, and that step exists. */
  lemma {:induction false} RunKeepsValid(o: Orchestrator, events: seq<Event>, o': Orchestrator)
    requires Valid(o) && Reached(o, events, o')
    ensures Valid(o')
    decreases |events|
  {
    if events != [] {
      HandleKeepsValid(o, events[0]);
      RunKeepsValid(Handle(o, events[0]), events[1..], o');
    }
  }

  // ----- rollback on accounts -----

  /** What running an action does to the accounts. External calls touch none of them and are
      taken to succeed; a missing account is an error. */
  function Execute(accounts: Accounts, a: SagaAction): (Accounts, bool) {
    match a
    case OnAccount(account, operation) =>
      if account !in accounts then (accounts, false) else
        var (funds, result) := Apply(accounts[account], operation);
        (accounts[account := funds], result.Success?)
    case _ => (accounts, true)
  }

  /** Runs actions in order, all of which must succeed. */
  function ExecuteAll(accounts: Accounts, actions: seq<SagaAction>): (Accounts, bool) {
    if actions == [] then (accounts, true) else
      var (accounts', ok) := Execute(accounts, actions[0]);
      if ok then ExecuteAll(accounts', actions[1..]) else (accounts', false)
  }

  function InverseAction(a: SagaAction): SagaAction {
    match a
    case OnAccount(account, operation) => OnAccount(account, Inverse(operation))
    case _ => NoOp
  }

  predicate Compensates(step: SagaStep) {
    if step.action.OnAccount? then step.compensation == InverseAction(step.action) else !step.compensation.OnAccount?
  }

  ghost predicate Funded(accounts: Accounts) {
    forall a :: a in accounts ==> Sound(accounts[a]) && 0 <= accounts[a].available
  }

  function Actions(steps: seq<SagaStep>): seq<SagaAction> {
    if steps == [] then [] else [steps[0].action] + Actions(steps[1..])
  }

  function FirstSteps(n: nat): (r: seq<nat>)
    ensures |r| == n && forall k :: 0 <= k < n ==> r[k] == k
  {
    if n == 0 then [] else FirstSteps(n - 1) + [n - 1]
  }

  lemma ExecuteKeepsFunded(accounts: Accounts, step: SagaStep)
    requires Funded(accounts)
    ensures Funded(Execute(accounts, step.action).0)
    ensures !Execute(accounts, step.action).1 ==> Execute(accounts, step.action).0 == accounts
    ensures Execute(accounts, step.action).1 && Compensates(step) ==>
      Execute(Execute(accounts, step.action).0, step.compensation) == (accounts, true)
  {
    if step.action.OnAccount? && step.action.account in accounts {
      var funds, operation := accounts[step.action.account], step.action.operation;
      ApplyOutcome(funds, operation);
      if Apply(funds, operation).1.Success? {
        InverseUndoes(funds, operation);
        assert accounts[step.action.account := Apply(funds, operation).0][step.action.account := funds] == accounts;
      } else {
        assert accounts[step.action.account := funds] == accounts;
      }
    }
  }

  lemma {:induction false} ActionsSnoc(steps: seq<SagaStep>, accounts: Accounts)
    requires steps != []
    ensures
      var (before, ok) := ExecuteAll(accounts, Actions(steps[..|steps| - 1]));
      ExecuteAll(accounts, Actions(steps)) ==
        if ok then Execute(before, steps[|steps| - 1].action) else (before, false)
  {
    if |steps| == 1 {
      assert ExecuteAll(Execute(accounts, steps[0].action).0, []).1;
    } else {
      assert steps[..|steps| - 1][1..] == steps[1..][..|steps| - 2];
      ActionsSnoc(steps[1..], Execute(accounts, steps[0].action).0);
    }
  }

  /** If the first k actions all succeeded, running their compensations in the order the
      orchestrator returns them succeeds throughout and restores every account exactly. */
  lemma {:induction false} RollbackIsExact(accounts: Accounts, steps: seq<SagaStep>, k: nat)
    requires Funded(accounts) && k <= |steps| && (forall i :: 0 <= i < |steps| ==> Compensates(steps[i]))
    requires ExecuteAll(accounts, Actions(steps[..k])).1
    ensures Funded(ExecuteAll(accounts, Actions(steps[..k])).0)
    ensures ExecuteAll(ExecuteAll(accounts, Actions(steps[..k])).0, Compensations(steps, FirstSteps(k))) == (accounts, true)
  {
    if k > 0 {
      assert steps[..k][..k - 1] == steps[..k - 1];
      ActionsSnoc(steps[..k], accounts);
      RollbackIsExact(accounts, steps, k - 1);
      var before := ExecuteAll(accounts, Actions(steps[..k - 1])).0;
      ExecuteKeepsFunded(before, steps[k - 1]);
      assert FirstSteps(k)[..k - 1] == FirstSteps(k - 1);
      var rest := Compensations(steps, FirstSteps(k - 1));
      assert Compensations(steps, FirstSteps(k)) == [steps[k - 1].compensation] + rest;
      assert ([steps[k - 1].compensation] + rest)[1..] == rest;
    }
  }

  // ----- driving a saga to its end -----

  /** What the caller does: run the next action, report it, and on a failure run the returned
      compensations. The result is the orchestrator, the accounts, and whether all went well. */
  function Drive(o: Orchestrator, id: SagaId, accounts: Accounts): (Orchestrator, Accounts, bool)
    requires ActiveOk(o) && id in o.active && InstanceOk(o.definitions, o.active[id])
    decreases |o.definitions[o.active[id].definition].steps| - o.active[id].currentStep
  {
    match NextAction(o, id)
    case Failure(_) => (o, accounts, false)
    case Success((_, action)) =>
      var (accounts', ok) := Execute(accounts, action);
      if ok then
        var (o', done) := StepSucceeded(o, id);
        assert ActiveOk(o');
        if done == Success(true) then (o', accounts', true) else Drive(o', id, accounts')
      else
        var (o', compensations) := StepFailed(o, id, "failed");
        var (accounts'', undone) := ExecuteAll(accounts', compensations.value);
        (CompensationComplete(o', id), accounts'', undone)
  }

  function StepsOf(o: Orchestrator, id: SagaId): seq<SagaStep>
    requires id in o.active && InstanceOk(o.definitions, o.active[id])
  {
    o.definitions[o.active[id].definition].steps
  }

  /** Either every action has been applied and the saga is completed, or some action could not
      be, no account differs from the start, and the saga is failed. */
  ghost predicate AllOrNothing(o: Orchestrator, id: SagaId, steps: seq<SagaStep>, initial: Accounts,
                               r: (Orchestrator, Accounts, bool))
  {
    var (o', accounts', ok) := r;
    && ok
    && if id in o'.active then
         && o'.active[id].status == Failed && accounts' == initial
         && !ExecuteAll(initial, Actions(steps)).1
       else
         && |o'.completed| == |o.completed| + 1 && o'.completed[|o.completed|].id == id
         && ExecuteAll(initial, Actions(steps)) == (accounts', true)
  }

  /** The saga has run its first steps, and only those, on the accounts. */
  ghost predicate Underway(o: Orchestrator, id: SagaId, initial: Accounts, accounts: Accounts) {
    && Valid(o) && id in o.active && InstanceOk(o.definitions, o.active[id])
    && o.active[id].status in {Pending, InProgress}
    && Funded(initial)
    && (forall i :: 0 <= i < |StepsOf(o, id)| ==> Compensates(StepsOf(o, id)[i]))
    && ExecuteAll(initial, Actions(StepsOf(o, id)[..o.active[id].currentStep])) == (accounts, true)
  }

  lemma FailedStepRollsBack(o: Orchestrator, id: SagaId, initial: Accounts, accounts: Accounts)
    requires Underway(o, id, initial, accounts)
    requires !Execute(accounts, StepsOf(o, id)[o.active[id].currentStep].action).1
    ensures AllOrNothing(o, id, StepsOf(o, id), initial, Drive(o, id, accounts))
  {
    var steps, k := StepsOf(o, id), o.active[id].currentStep;
    assert steps[..k + 1][..k] == steps[..k];
    ActionsSnoc(steps[..k + 1], initial);
    RollbackIsExact(initial, steps, k);
    ExecuteKeepsFunded(accounts, steps[k]);
    assert o.active[id].completedSteps == FirstSteps(k);
    FailedPrefix(initial, steps, k + 1);
  }

  lemma SucceededStepIsUnderway(o: Orchestrator, id: SagaId, initial: Accounts, accounts: Accounts)
    requires Underway(o, id, initial, accounts)
    requires Execute(accounts, StepsOf(o, id)[o.active[id].currentStep].action).1
    ensures
      var steps, k := StepsOf(o, id), o.active[id].currentStep;
      var accounts' := Execute(accounts, steps[k].action).0;
      var o' := StepSucceeded(o, id).0;
      && ExecuteAll(initial, Actions(steps[..k + 1])) == (accounts', true)
      && (k + 1 < |steps| ==> Underway(o', id, initial, accounts') && StepsOf(o', id) == steps
                               && o'.completed == o.completed && o'.active[id].currentStep == k + 1)
  {
    var steps, k := StepsOf(o, id), o.active[id].currentStep;
    assert steps[..k + 1][..k] == steps[..k];
    ActionsSnoc(steps[..k + 1], initial);
    HandleKeepsValid(o, SucceededEvent(id));
  }

  /** Atomicity of a whole saga, driven to its end from any step that it has reached. */
  lemma {:induction false} SagaIsAllOrNothing(o: Orchestrator, id: SagaId, initial: Accounts, accounts: Accounts)
    requires Underway(o, id, initial, accounts)
    ensures AllOrNothing(o, id, StepsOf(o, id), initial, Drive(o, id, accounts))
    decreases |StepsOf(o, id)| - o.active[id].currentStep
  {
    var steps, k := StepsOf(o, id), o.active[id].currentStep;
    if Execute(accounts, steps[k].action).1 {
      SucceededStepIsUnderway(o, id, initial, accounts);
      if k + 1 == |steps| {
        assert steps[..k + 1] == steps;
      } else {
        SagaIsAllOrNothing(StepSucceeded(o, id).0, id, initial, Execute(accounts, steps[k].action).0);
      }
    } else {
      FailedStepRollsBack(o, id, initial, accounts);
    }
  }

  lemma {:induction false} FailedPrefix(accounts: Accounts, steps: seq<SagaStep>, n: nat)
    requires n <= |steps| && !ExecuteAll(accounts, Actions(steps[..n])).1
    ensures !ExecuteAll(accounts, Actions(steps)).1
    decreases |steps| - n
  {
    if n == |steps| {
      assert steps[..n] == steps;
    } else {
      assert steps[..n + 1][..n] == steps[..n];
      ActionsSnoc(steps[..n + 1], accounts);
      FailedPrefix(accounts, steps, n + 1);
    }
  }
}

module Saga {
  import opened Wrappers
  import opened Spec = SagaSpec

  class SagaOrchestrator {
    var definitions: map<string, SagaDefinition>
    var active: map<SagaId, SagaInstance>
    var completed: seq<SagaInstance>
    var nextId: nat

    function View(): Orchestrator
      reads this
    {
      Orchestrator(definitions, active, completed, nextId)
    }

    constructor ()
      ensures View() == Orchestrator(map[], map[], [], 0) && Valid(View()) && Known(View())
    {
      definitions, active, completed, nextId := map[], map[], [], 0;
    }

    method Register(d: SagaDefinition)
      modifies this`definitions
      ensures View() == Spec.Register(old(View()), d)
      ensures old(Known(View())) ==> Known(View())
      ensures old(Valid(View())) ==> (Valid(View()) <==> Admissible(old(View()), RegisterEvent(d)))
    {
      ghost var before := View();
      if Valid(before) {
        HandleKeepsValid(before, RegisterEvent(d));
      }
      definitions := definitions[d.name := d];
    }

    method Start(name: string) returns (r: Result<SagaId, SagaError>)
      modifies this`active, this`nextId
      ensures (View(), r) == Spec.Start(old(View()), name)
      ensures r.Success? <==> name in definitions && definitions[name].steps != []
      ensures r.Success? ==>
        && r.value in active && active[r.value].definition == name && active[r.value].status == Pending
        && (old(ActiveOk(View())) ==>
              r.value !in old(active)
              && Spec.NextAction(View(), r.value) == Success((0, definitions[name].steps[0].action)))
      ensures old(Known(View())) ==> Known(View())
      ensures old(Valid(View())) ==> Valid(View())
    {
      if name !in definitions {
        return Failure(UnknownDefinition(name));
      }
      if definitions[name].steps == [] {
        return Failure(NoSteps);
      }
      active := active[nextId := SagaInstance(nextId, name, Pending, 0, [], None)];
      nextId := nextId + 1;
      return Success(nextId - 1);
    }

    method NextAction(id: SagaId) returns (r: Result<(nat, SagaAction), SagaError>)
      requires Known(View())
      ensures r == Spec.NextAction(View(), id)
      ensures Valid(View()) ==>
        (r.Success? <==> id in active && active[id].status in {Pending, InProgress})
        && (r.Success? ==>
              && r.value.0 == |active[id].completedSteps| < |definitions[active[id].definition].steps|
              && r.value.1 == definitions[active[id].definition].steps[r.value.0].action)
    {
      if id !in active {
        return Failure(SagaNotFound(id));
      }
      var i := active[id];
      if i.status != Pending && i.status != InProgress {
        return Failure(SagaNotActive(i.status));
      }
      var steps := definitions[i.definition].steps;
      assert Valid(View()) ==> InstanceOk(definitions, i);
      if i.currentStep >= |steps| {
        return Failure(AllStepsCompleted);
      }
      return Success((i.currentStep, steps[i.currentStep].action));
    }

    method StepSucceeded(id: SagaId) returns (r: Result<bool, SagaError>)
      requires Known(View())
      modifies this`active, this`completed
      ensures (View(), r) == Spec.StepSucceeded(old(View()), id) && Known(View())
      ensures old(Valid(View())) ==> Valid(View())
    {
      ghost var before := View();
      if Valid(before) {
        HandleKeepsValid(before, SucceededEvent(id));
      }
      if id !in active {
        return Failure(SagaNotFound(id));
      }
      var i := active[id];
      i := i.(completedSteps := i.completedSteps + [i.currentStep], currentStep := i.currentStep + 1);
      i := i.(status := InProgress);
      if i.currentStep >= |definitions[i.definition].steps| {
        active := active - {id};
        completed := completed + [i.(status := Completed)];
        return Success(true);
      }
      active := active[id := i];
      return Success(false);
    }

    /** Compensations of the completed steps, last step first. */
    static method CollectCompensations(steps: seq<SagaStep>, completedSteps: seq<nat>) returns (r: seq<SagaAction>)
      requires forall k :: 0 <= k < |completedSteps| ==> completedSteps[k] < |steps|
      ensures r == Compensations(steps, completedSteps)
    {
      r := [];
      var k := |completedSteps|;
      assert completedSteps[..k] == completedSteps;
      while k > 0
        invariant 0 <= k <= |completedSteps|
        invariant r + Compensations(steps, completedSteps[..k]) == Compensations(steps, completedSteps)
      {
        k := k - 1;
        assert completedSteps[..k + 1][..k] == completedSteps[..k];
        r := r + [steps[completedSteps[k]].compensation];
      }
    }

    /** None is a panic: a completed step that the definition no longer has. */
    method StepFailed(id: SagaId, error: string) returns (r: Option<Result<seq<SagaAction>, SagaError>>)
      requires Known(View())
      modifies this`active
      ensures View() == FailureRecorded(old(View()), id, error) && Known(View())
      ensures r.Some? <==> CanCompensate(old(View()), id)
      ensures r.Some? ==> r.value == Spec.StepFailed(old(View()), id, error).1
      ensures old(Valid(View())) ==> Valid(View()) && r.Some?
    {
      ghost var before := View();
      if Valid(before) {
        HandleKeepsValid(before, FailedEvent(id, error));
      }
      if id !in active {
        return Some(Failure(SagaNotFound(id)));
      }
      var i := active[id];
      active := active[id := i.(status := Compensating, error := Some(error))];
      var steps := definitions[i.definition].steps;
      if exists k :: 0 <= k < |i.completedSteps| && i.completedSteps[k] >= |steps| {
        return None;
      }
      var compensations := CollectCompensations(steps, i.completedSteps);
      return Some(Success(compensations));
    }

    method CompensationComplete(id: SagaId)
      modifies this`active
      ensures View() == Spec.CompensationComplete(old(View()), id)
      ensures old(Known(View())) ==> Known(View())
      ensures old(Valid(View())) ==> Valid(View())
    {
      if id in active {
        active := active[id := active[id].(status := Failed)];
      }
    }
  }
}
