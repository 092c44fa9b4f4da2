/** The example aggregate: a customer with a first and a last name, created by registering. */
module Customers {
  import opened Events
  import opened Results
  import opened Aggregates

  /** The fields Customer declares on top of the base class. */
  datatype CustomerState = CustomerState(FirstName: string, LastName: string)

  /** A new customer's names, from the property initialisers. */
  const Blank := CustomerState("", "")

  /** Copies the names of a registration onto the customer. */
  function Apply(c: CustomerState, customerRegistered: Event): (r: CustomerState)
    requires customerRegistered.CustomerRegistered?
    ensures r.FirstName == customerRegistered.FirstName && r.LastName == customerRegistered.LastName
  {
    c.(FirstName := customerRegistered.FirstName, LastName := customerRegistered.LastName)
  }

  /** Customer's override: a registration is handled, every other event is rejected. */
  function TryApplyEvent(c: CustomerState, domainEvent: Event): (r: Option<CustomerState>)
    ensures r.Some? <==> domainEvent.CustomerRegistered?
    ensures r.Some? ==> r.value == CustomerState(domainEvent.FirstName, domainEvent.LastName)
  {
    match domainEvent
    case CustomerRegistered(_, _, _) => Some(Apply(c, domainEvent))
    case _ => None
  }

  /** The Customer class as the base class and the store see it. */
  const CustomerType: AggregateType<CustomerState> := AggregateType("Customer", Blank, TryApplyEvent)

  /** The constructor for a new customer: blank names, version 0, nothing pending. */
  method New(id: string) returns (instance: AggregateRoot<CustomerState>)
    ensures fresh(instance) && instance.Valid() && instance.Type == CustomerType
    ensures instance.Id == id && instance.Version == 0 && instance.PendingDomainEvents == []
    ensures instance.State == Blank && instance.State.FirstName == "" && instance.State.LastName == ""
    ensures instance.BaseVersion == 0 && instance.BaseState == Blank && instance.Accepted == []
  {
    instance := new AggregateRoot(CustomerType, id);
  }

  /** The replay constructor: a customer rebuilt from its history. */
  method Rehydrate(id: string, version: int, events: seq<Event>) returns (r: Result<AggregateRoot<CustomerState>>)
    ensures r.Ok? <==> forall i :: 0 <= i < |events| ==> events[i].CustomerRegistered?
    ensures r.Ok? ==>
      && fresh(r.value) && r.value.Valid() && r.value.Type == CustomerType
      && r.value.Id == id && r.value.Version == version && r.value.PendingDomainEvents == []
      && r.value.State == LastNames(events)
    ensures r.Err? ==> r.error.CannotRestore? && !r.error.event.CustomerRegistered?
  {
    ReplayKeepsLastRegistration(Blank, events);
    r := Restore(CustomerType, id, version, events);
    if r.Err? {
      ReplayStopsAtFirstRejected(TryApplyEvent, Blank, events);
    }
  }

  /** The names a history leaves on a customer: those of its last registration, or blank. */
  function LastNames(events: seq<Event>): (c: CustomerState)
    ensures c == Blank || exists i ::
      && 0 <= i < |events| && events[i].CustomerRegistered?
      && c == CustomerState(events[i].FirstName, events[i].LastName)
    decreases |events|
  {
    if events == [] then Blank
    else
      var last := events[|events| - 1];
      if last.CustomerRegistered? then CustomerState(last.FirstName, last.LastName)
      else LastNames(events[..|events| - 1])
  }

  /** A customer's history replays exactly when every event in it is a registration, and then
      the names are those of the last registration; earlier ones are overwritten. */
  lemma {:induction false} ReplayKeepsLastRegistration(c: CustomerState, events: seq<Event>)
    ensures Replay(TryApplyEvent, c, events).Ok? <==> forall i :: 0 <= i < |events| ==> events[i].CustomerRegistered?
    ensures Replay(TryApplyEvent, c, events).Ok? && events != [] ==>
      Replay(TryApplyEvent, c, events).value == LastNames(events)
    ensures events == [] ==> Replay(TryApplyEvent, c, events) == Ok(c)
    decreases |events|
  {
    if events != [] {
      var front := events[..|events| - 1];
      ReplayKeepsLastRegistration(c, front);
      assert forall i :: 0 <= i < |front| ==> front[i] == events[i];
    }
  }

  /** Creates a customer and emits its registration. */
  method Register(id: string, firstName: string, lastName: string) returns (instance: AggregateRoot<CustomerState>)
    ensures fresh(instance) && instance.Valid() && instance.Type == CustomerType
    ensures instance.Id == id && instance.Version == 1
    ensures instance.State == CustomerState(firstName, lastName)
    ensures instance.PendingDomainEvents == [CustomerRegistered(id, firstName, lastName)]
    ensures instance.BaseVersion == 0 && instance.BaseState == Blank
    ensures instance.Accepted == instance.PendingDomainEvents
  {
    var registered := CustomerRegistered(id, firstName, lastName);
    instance := New(id);
    assert instance.Valid();
    assert TryApplyEvent(Blank, registered) == Some(CustomerState(firstName, lastName));
    assert instance.Type.tryApplyEvent == TryApplyEvent;
    instance.Emit(registered);
    assert instance.Valid();
    assert instance.Accepted == [registered] == instance.PendingDomainEvents;
  }

  /** Replay determinism for the example: rebuilding a customer at version 1 from its
      registration gives the id, version and names that registering it gave. */
  method RegisterThenRehydrate(id: string, firstName: string, lastName: string)
    returns (registered: AggregateRoot<CustomerState>, rehydrated: Result<AggregateRoot<CustomerState>>)
    ensures rehydrated.Ok? && rehydrated.value != registered
    ensures rehydrated.value.Id == registered.Id == id
    ensures rehydrated.value.Version == registered.Version == 1
    ensures rehydrated.value.State == registered.State == CustomerState(firstName, lastName)
    ensures rehydrated.value.PendingDomainEvents == []
  {
    registered := Register(id, firstName, lastName);
    rehydrated := Rehydrate(id, 1, [CustomerRegistered(id, firstName, lastName)]);
  }
}
