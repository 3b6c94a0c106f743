/**
 * What the caller of the saga orchestrator is told: how a started saga proceeds from report to
 * report, which action it is handed next, and that a saga is atomic from its start.
 */
module SagaAnswers {
  import opened Wrappers
  import opened AccountSpec
  import opened SagaSpec

  // ----- starting -----

  /** A saga starts if and only if its name is known and it has steps. It starts under a fresh id,
      with nothing done and its first action next, and nothing else changes. */
  lemma StartIsExact(o: Orchestrator, name: string)
    requires ActiveOk(o)
    ensures
      var (o', r) := Start(o, name);
      match r
      case Success(id) =>
        && name in o.definitions && o.definitions[name].steps != []
        && id !in o.active && o'.active.Keys == o.active.Keys + {id} && o'.nextId > id
        && (forall x :: x in o.active ==> o'.active[x] == o.active[x])
        && o'.definitions == o.definitions && o'.completed == o.completed
        && IsNew(o'.active[id], id, name)
        && NextAction(o', id) == Success((0, o.definitions[name].steps[0].action))
      case Failure(UnknownDefinition(n)) => n == name && name !in o.definitions && o' == o
      case Failure(NoSteps) => name in o.definitions && o.definitions[name].steps == [] && o' == o
      case Failure(_) => false
  {
    if Start(o, name).1.Success? {
      assert o.nextId !in o.active;
    }
  }

  predicate IsNew(i: SagaInstance, id: SagaId, name: string) {
    i.id == id && i.definition == name && i.status == Pending && i.currentStep == 0 && i.completedSteps == [] && i.error == None
  }

  ghost predicate Reversible(d: SagaDefinition) {
    forall i :: 0 <= i < |d.steps| ==> Compensates(d.steps[i])
  }

  lemma StartIsUnderway(o: Orchestrator, name: string, accounts: Accounts)
    requires Valid(o) && Funded(accounts)
    requires Start(o, name).1.Success? && Reversible(o.definitions[name])
    ensures
      var (o', id) := Start(o, name);
      && Underway(o', id.value, accounts, accounts)
      && StepsOf(o', id.value) == o.definitions[name].steps && o'.completed == o.completed
  {
    var (o', id) := Start(o, name);
    HandleKeepsValid(o, StartEvent(name));
    assert InstanceOk(o'.definitions, o'.active[id.value]);
    assert StepsOf(o', id.value)[..0] == [];
  }

  /** Atomicity of a whole saga: started, and driven to its end, it has applied every action in
      order and is completed, or changed no account and is failed. It completes exactly when all
      its actions can be applied one after the other. */
  lemma StartedSagaIsAllOrNothing(o: Orchestrator, name: string, accounts: Accounts)
    requires Valid(o) && Funded(accounts)
    requires name in o.definitions && o.definitions[name].steps != [] && Reversible(o.definitions[name])
    ensures
      var (o', id) := Start(o, name);
      && id.Success? && Underway(o', id.value, accounts, accounts)
      && AllOrNothing(o', id.value, o.definitions[name].steps, accounts, Drive(o', id.value, accounts))
  {
    StartIsUnderway(o, name, accounts);
    var (o', id) := Start(o, name);
    SagaIsAllOrNothing(o', id.value, accounts, accounts);
  }

  // ----- reports -----

  function Successes(events: seq<Event>, id: SagaId): nat {
    if events == [] then 0 else (if events[0] == SucceededEvent(id) then 1 else 0) + Successes(events[1..], id)
  }

  /** The status and the error that the reports about a saga leave it with. */
  function StatusAfter(events: seq<Event>, id: SagaId, status: SagaStatus): SagaStatus {
    if events == [] then status else
      StatusAfter(events[1..], id,
                  match events[0]
                  case SucceededEvent(x) => if x == id then InProgress else status
                  case FailedEvent(x, _) => if x == id then Compensating else status
                  case CompensatedEvent(x) => if x == id then Failed else status
                  case _ => status)
  }

  function ErrorAfter(events: seq<Event>, id: SagaId, error: Option<string>): Option<string> {
    if events == [] then error
    else ErrorAfter(events[1..], id, if events[0].FailedEvent? && events[0].id == id then Some(events[0].error) else error)
  }

  /** Over any run of calls, whatever happens to other sagas: an active saga stands as many steps
      further as successes were reported for it, in the status of the last report. */
  lemma {:induction false} ActiveFollowsReports(o: Orchestrator, events: seq<Event>, o': Orchestrator, id: SagaId)
    requires Valid(o) && Reached(o, events, o') && id < o.nextId && id in o'.active
    ensures id in o.active
    ensures
      var i, i' := o.active[id], o'.active[id];
      && i'.currentStep == i.currentStep + Successes(events, id) && i'.definition == i.definition
      && i'.status == StatusAfter(events, id, i.status) && i'.error == ErrorAfter(events, id, i.error)
    decreases |events|
  {
    if events != [] {
      HandleKeepsValid(o, events[0]);
      ActiveFollowsReports(Handle(o, events[0]), events[1..], o', id);
      HandleFollowsReport(o, events[0], id);
    }
  }

  lemma HandleFollowsReport(o: Orchestrator, e: Event, id: SagaId)
    requires Valid(o) && id < o.nextId && id in Handle(o, e).active
    ensures id in o.active && id < Handle(o, e).nextId
    ensures
      var i, i' := o.active[id], Handle(o, e).active[id];
      && i'.currentStep == i.currentStep + Successes([e], id) && i'.definition == i.definition
      && i'.status == StatusAfter([e], id, i.status) && i'.error == ErrorAfter([e], id, i.error)
  {
    assert [e][1..] == [];
  }

  /** While a saga is active, its next action is that of the step it has reached, and it is handed
      out exactly when the last report about it, if any, was a success. */
  lemma NextActionFollowsReports(o: Orchestrator, name: string, events: seq<Event>, o': Orchestrator)
    requires Valid(o) && Start(o, name).1.Success? && Reached(Start(o, name).0, events, o')
    ensures
      var id := Start(o, name).1.value;
      id !in o'.active ||
      (&& o'.active[id].definition == name && name in o'.definitions && Successes(events, id) < |o'.definitions[name].steps|
       && var status, n := StatusAfter(events, id, Pending), Successes(events, id);
          NextAction(o', id) == if status == Pending || status == InProgress
                                then Success((n, o'.definitions[name].steps[n].action)) else Failure(SagaNotActive(status)))
  {
    var (o1, id) := Start(o, name);
    HandleKeepsValid(o, StartEvent(name));
    RunKeepsValid(o1, events, o');
    if id.value in o'.active {
      ActiveFollowsReports(o1, events, o', id.value);
      assert InstanceOk(o'.definitions, o'.active[id.value]);
    }
  }

  /** A report about a saga that is not active is refused, or ignored, and changes nothing; any
      other leaves every other saga, and the definitions, as they were. */
  lemma ReportsAreAboutOneSaga(o: Orchestrator, id: SagaId, error: string)
    requires ActiveOk(o)
    ensures id !in o.active ==>
      && NextAction(o, id) == Failure(SagaNotFound(id)) && StepSucceeded(o, id) == (o, Failure(SagaNotFound(id)))
      && StepFailed(o, id, error) == (o, Failure(SagaNotFound(id))) && CompensationComplete(o, id) == o
    ensures forall o' | o' in {StepSucceeded(o, id).0, FailureRecorded(o, id, error), CompensationComplete(o, id)} ::
      o'.active - {id} == o.active - {id} && o'.definitions == o.definitions && o'.nextId == o.nextId
  {
    assert id in o.active ==> InstanceOk(o.definitions, o.active[id]);
    assert (o.active - {id}) - {id} == o.active - {id};
  }

  // ----- the end of a saga -----

  predicate KeepsDefinition(events: seq<Event>, name: string) {
    forall k :: 0 <= k < |events| ==> !(events[k].RegisterEvent? && events[k].definition.name == name)
  }

  ghost predicate CompletedWith(o: Orchestrator, id: SagaId, steps: nat) {
    exists k :: 0 <= k < |o.completed| && o.completed[k].id == id && o.completed[k].completedSteps == FirstSteps(steps)
  }

  lemma LastSuccessCompletes(o: Orchestrator, id: SagaId)
    requires Valid(o) && id in o.active
    ensures
      var n, o' := |StepsOf(o, id)|, StepSucceeded(o, id).0;
      && (id in o'.active <==> o.active[id].currentStep + 1 < n)
      && (id !in o'.active ==> CompletedWith(o', id, n) && StepSucceeded(o, id).1 == Success(true))
  {
    var n, o' := |StepsOf(o, id)|, StepSucceeded(o, id).0;
    assert InstanceOk(o.definitions, o.active[id]);
    if id !in o'.active {
      var last := o'.completed[|o.completed|];
      assert last.completedSteps == FirstSteps(n);
      assert last.id == id;
    }
  }

  lemma {:induction false} CompletedStays(o: Orchestrator, events: seq<Event>, o': Orchestrator, id: SagaId, n: nat)
    requires Valid(o) && Reached(o, events, o') && id < o.nextId && id !in o.active && CompletedWith(o, id, n)
    ensures id !in o'.active && CompletedWith(o', id, n)
    decreases |events|
  {
    if events != [] {
      var next := Handle(o, events[0]);
      HandleKeepsValid(o, events[0]);
      var k :| 0 <= k < |o.completed| && o.completed[k].id == id && o.completed[k].completedSteps == FirstSteps(n);
      assert next.completed[k] == o.completed[k];
      CompletedStays(next, events[1..], o', id, n);
    }
  }

  /** As long as its definition is not replaced, a saga is active until as many successes have been
      reported as it has steps, and completed with all of them from then on, whatever failures and
      compensations were reported in between. */
  lemma {:induction false} SuccessesCompleteSaga(o: Orchestrator, events: seq<Event>, o': Orchestrator, id: SagaId)
    requires Valid(o) && Reached(o, events, o') && id in o.active && KeepsDefinition(events, o.active[id].definition)
    ensures
      var n := |StepsOf(o, id)|;
      && (id in o'.active <==> o.active[id].currentStep + Successes(events, id) < n)
      && (id !in o'.active ==> CompletedWith(o', id, n))
    decreases |events|
  {
    assert InstanceOk(o.definitions, o.active[id]);
    if events != [] {
      var next := Handle(o, events[0]);
      HandleKeepsValid(o, events[0]);
      if events[0] == SucceededEvent(id) {
        LastSuccessCompletes(o, id);
      }
      if id in next.active {
        HandleFollowsReport(o, events[0], id);
        assert [events[0]][1..] == [];
        SuccessesCompleteSaga(next, events[1..], o', id);
      } else {
        CompletedStays(next, events[1..], o', id, |StepsOf(o, id)|);
      }
    }
  }
}
