/** The example program: register the event type, save a new customer, load it back. */
module BasicEventSourcing {
  import opened Events
  import opened Results
  import opened Aggregates
  import opened Registry
  import opened Store
  import opened Customers

  /** The registry of the example, with the registration event under its versioned name. */
  method ExampleRegistry() returns (eventRegistry: EventRegistry)
    ensures fresh(eventRegistry) && eventRegistry.Valid()
    ensures eventRegistry.eventSchemaToType == map["customers.registered.v1" := CustomerRegisteredType]
    ensures eventRegistry.eventTypeToSchema == map[CustomerRegisteredType := "customers.registered.v1"]
  {
    eventRegistry := new EventRegistry();
    var registered := eventRegistry.Register(CustomerRegisteredType, "customers.registered.v1");
  }

  /** Saving a newly registered customer into a table without records for it, then loading the
      table, gives version 1 and the registration as the whole history, which replays to the
      registered names. */
  lemma RegistrationRoundTrip(registry: EventRegistry, id: string, firstName: string, lastName: string,
                              saved: seq<EventSourcedRecord>, encode: Event -> string,
                              decode: (string, EventType) -> Result<Event>, clock: nat -> int)
    requires registry.Valid() && CustomerRegisteredType in registry.eventTypeToSchema
    requires forall e :: decode(encode(e), TypeOf(e)) == Ok(e)
    requires SaveRecords(registry, id, 0, [CustomerRegistered(id, firstName, lastName)], encode, clock) == Ok(saved)
    ensures LoadHistory(registry, saved, id, decode) == Ok(History(1, [CustomerRegistered(id, firstName, lastName)]))
    ensures Replay(CustomerType.tryApplyEvent, CustomerType.initial, [CustomerRegistered(id, firstName, lastName)])
         == Ok(CustomerState(firstName, lastName))
  {
    var pending := [CustomerRegistered(id, firstName, lastName)];
    assert ForAggregate([], id) == [];
    assert CurrentVersion([], id) == 0;
    assert DecodeEvents(registry, [], decode) == Ok([]);
    SaveThenLoad(registry, [], id, pending, saved, encode, decode, clock);
    assert [] + saved == saved;
    var loaded := LoadHistory(registry, saved, id, decode);
    assert loaded.Ok? && loaded.value.version == 1;
    assert loaded.value.events == [] + pending == pending;
    ReplayKeepsLastRegistration(Blank, pending);
  }

  /** The whole example against an event store whose customer table starts empty. The JSON
      serializer is the pair `encode`/`decode`, of which only the round trip is assumed, and
      `clock` stands for the system clock. The loaded customer carries the first name it was
      registered with, at version 1. */
  method RunExample(encode: Event -> string, decode: (string, EventType) -> Result<Event>, clock: nat -> int)
    returns (firstName: string, version: int)
    requires forall e :: decode(encode(e), TypeOf(e)) == Ok(e)
    ensures firstName == "Test" && version == 1
  {
    var eventRegistry := ExampleRegistry();
    var eventStore := new EventStore(map[CustomerType.name := []], eventRegistry);

    var customer := Customers.Register("123", "Test", "Test");
    var registration := CustomerRegistered("123", "Test", "Test");
    var records := SaveRecords(eventRegistry, "123", 0, [registration], encode, clock);
    assert records.Ok?;
    RegistrationRoundTrip(eventRegistry, "123", "Test", "Test", records.value, encode, decode, clock);
    assert eventStore.Table(CustomerType.name) == [] && CurrentVersion([], "123") == 0;
    var saved := eventStore.SaveAsync(customer, encode, clock);
    assert eventStore.Table(CustomerType.name) == [] + records.value == records.value;

    var loadedCustomer := eventStore.Load(CustomerType, "123", decode);
    assert loadedCustomer.Ok?;
    firstName := loadedCustomer.value.State.FirstName;
    version := loadedCustomer.value.Version;
  }
}
