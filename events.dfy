/** Domain events and the errors the library raises. */
module Events {

  /** Runtime type identity of an event (`GetType()` in the library). */
  datatype EventType = CustomerRegisteredType | OtherType(name: string)

  /** A domain event. The library handles events as untyped objects; this model closes the
      universe: the example's `CustomerRegistered` record, and any other event class, identified
      by its type name and carrying opaque field values. */
  datatype Event =
    | CustomerRegistered(Id: string, FirstName: string, LastName: string)
    | OtherEvent(typeName: string, fields: seq<string>)

  function TypeOf(e: Event): (t: EventType)
    ensures t == CustomerRegisteredType <==> e.CustomerRegistered?
  {
    match e
    case CustomerRegistered(_, _, _) => CustomerRegisteredType
    case OtherEvent(name, _) => OtherType(name)
  }
}

/** Exceptions of the library, as values. */
module Results {
  import opened Events

  datatype Error =
    /** ArgumentException: the schema name is already registered. */
    | DuplicateSchemaName(schemaName: string)
    /** ArgumentException from the type-to-name dictionary: the event type is already registered. */
    | DuplicateEventType(eventType: EventType)
    /** ArgumentException: no event is registered under this schema name. */
    | UnknownSchemaName(schemaName: string)
    /** ArgumentException: this event type is not registered. */
    | UnknownEventType(eventType: EventType)
    /** InvalidOperationException: the aggregate rejected an event while it was being restored. */
    | CannotRestore(event: Event)
    /** InvalidOperationException from taking the maximum of an empty sequence of records. */
    | NoRecords
    /** The deserializer could not read a stored payload. */
    | MalformedEventData(eventData: string)

  datatype Option<+T> = None | Some(value: T)

  datatype Result<+T> = Ok(value: T) | Err(error: Error)

  /** Outcome of an operation that returns nothing but may throw. */
  datatype Outcome = Pass | Fail(error: Error)
}
