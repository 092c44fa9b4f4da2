/** The event registry: a schema name (the stable wire name of an event) mapped to an event type,
    and the type mapped back to its name. */
module Registry {
  import opened Events
  import opened Results

  /** The two dictionaries are mutual inverses. */
  ghost predicate Inverse(schemaToType: map<string, EventType>, typeToSchema: map<EventType, string>) {
    && (forall name :: name in schemaToType ==> schemaToType[name] in typeToSchema && typeToSchema[schemaToType[name]] == name)
    && (forall t :: t in typeToSchema ==> typeToSchema[t] in schemaToType && schemaToType[typeToSchema[t]] == t)
  }

  /** The contents of a registry. */
  datatype Bindings = Bindings(schemaToType: map<string, EventType>, typeToSchema: map<EventType, string>)

  /** Register as written: the name is checked, the name-to-type entry is added, and only then is
      the type-to-name entry added, which fails when the type is already present, leaving the
      first entry in place. */
  function RegisterStep(b: Bindings, t: EventType, schemaName: string): (r: (Outcome, Bindings))
    ensures b.schemaToType.Items <= r.1.schemaToType.Items && b.typeToSchema.Items <= r.1.typeToSchema.Items
    ensures r.0.Pass? <==> schemaName !in b.schemaToType && t !in b.typeToSchema
    ensures r.0.Pass? ==> r.1 == Bindings(b.schemaToType[schemaName := t], b.typeToSchema[t := schemaName])
    ensures schemaName in b.schemaToType ==> r == (Fail(DuplicateSchemaName(schemaName)), b)
  {
    if schemaName in b.schemaToType then (Fail(DuplicateSchemaName(schemaName)), b)
    else
      var forward := b.schemaToType[schemaName := t];
      if t in b.typeToSchema then (Fail(DuplicateEventType(t)), b.(schemaToType := forward))
      else (Pass, Bindings(forward, b.typeToSchema[t := schemaName]))
  }

  /** Register as evidently intended: both keys are checked before either dictionary changes. */
  function AtomicRegisterStep(b: Bindings, t: EventType, schemaName: string): (r: (Outcome, Bindings))
    ensures r.0.Pass? <==> schemaName !in b.schemaToType && t !in b.typeToSchema
    ensures r.0.Pass? ==> r.1 == Bindings(b.schemaToType[schemaName := t], b.typeToSchema[t := schemaName])
    ensures r.0.Fail? ==> r.1 == b
  {
    if schemaName in b.schemaToType then (Fail(DuplicateSchemaName(schemaName)), b)
    else if t in b.typeToSchema then (Fail(DuplicateEventType(t)), b)
    else (Pass, Bindings(b.schemaToType[schemaName := t], b.typeToSchema[t := schemaName]))
  }

  /** A successful registration keeps the dictionaries inverse. */
  lemma RegisterKeepsInverse(b: Bindings, t: EventType, schemaName: string)
    requires Inverse(b.schemaToType, b.typeToSchema)
    requires RegisterStep(b, t, schemaName).0.Pass?
    ensures Inverse(RegisterStep(b, t, schemaName).1.schemaToType, RegisterStep(b, t, schemaName).1.typeToSchema)
  {
  }

  /** Registering an already-registered type under a fresh name fails, yet the fresh name now
      resolves to the type while the type still resolves to its old name: the dictionaries are no
      longer inverse. */
  lemma RegisterTypeTwiceBreaksInverse(b: Bindings, t: EventType, schemaName: string)
    requires Inverse(b.schemaToType, b.typeToSchema)
    requires schemaName !in b.schemaToType && t in b.typeToSchema
    ensures RegisterStep(b, t, schemaName).0 == Fail(DuplicateEventType(t))
    ensures RegisterStep(b, t, schemaName).1.schemaToType[schemaName] == t
    ensures RegisterStep(b, t, schemaName).1.typeToSchema[t] != schemaName
    ensures !Inverse(RegisterStep(b, t, schemaName).1.schemaToType, RegisterStep(b, t, schemaName).1.typeToSchema)
  {
    var after := RegisterStep(b, t, schemaName).1;
    assert b.typeToSchema[t] in b.schemaToType;
    assert after.schemaToType[schemaName] == t && after.typeToSchema[t] != schemaName;
  }

  /** The corrected registration keeps the dictionaries inverse whatever it is asked. */
  lemma AtomicRegisterKeepsInverse(b: Bindings, t: EventType, schemaName: string)
    requires Inverse(b.schemaToType, b.typeToSchema)
    ensures Inverse(AtomicRegisterStep(b, t, schemaName).1.schemaToType, AtomicRegisterStep(b, t, schemaName).1.typeToSchema)
  {
  }

  /** The two registrations differ only when the type is already registered under another name. */
  lemma AtomicRegisterAgrees(b: Bindings, t: EventType, schemaName: string)
    requires schemaName in b.schemaToType || t !in b.typeToSchema
    ensures AtomicRegisterStep(b, t, schemaName) == RegisterStep(b, t, schemaName)
  {
  }

  class EventRegistry {
    var eventSchemaToType: map<string, EventType>
    var eventTypeToSchema: map<EventType, string>

    ghost predicate Valid()
      reads this
    {
      Inverse(eventSchemaToType, eventTypeToSchema)
    }

    ghost function Snapshot(): Bindings
      reads this
    {
      Bindings(eventSchemaToType, eventTypeToSchema)
    }

    constructor ()
      ensures eventSchemaToType == map[] && eventTypeToSchema == map[]
      ensures Valid()
    {
      eventSchemaToType := map[];
      eventTypeToSchema := map[];
    }

    method Register(t: EventType, schemaName: string) returns (r: Outcome)
      modifies this
      ensures (r, Snapshot()) == RegisterStep(old(Snapshot()), t, schemaName)
    {
      if schemaName in eventSchemaToType {
        return Fail(DuplicateSchemaName(schemaName));
      }
      eventSchemaToType := eventSchemaToType[schemaName := t];
      if t in eventTypeToSchema {
        return Fail(DuplicateEventType(t));
      }
      eventTypeToSchema := eventTypeToSchema[t := schemaName];
      r := Pass;
    }

    /** Register with both checks made before any change. */
    method RegisterAtomic(t: EventType, schemaName: string) returns (r: Outcome)
      modifies this
      ensures (r, Snapshot()) == AtomicRegisterStep(old(Snapshot()), t, schemaName)
      ensures old(Valid()) ==> Valid()
    {
      if schemaName in eventSchemaToType {
        return Fail(DuplicateSchemaName(schemaName));
      }
      if t in eventTypeToSchema {
        return Fail(DuplicateEventType(t));
      }
      eventSchemaToType := eventSchemaToType[schemaName := t];
      eventTypeToSchema := eventTypeToSchema[t := schemaName];
      r := Pass;
    }

    function GetEventType(schemaName: string): (r: Result<EventType>)
      reads this
      ensures r.Ok? <==> schemaName in eventSchemaToType
      ensures r.Ok? ==> r.value == eventSchemaToType[schemaName]
      ensures r.Err? ==> r.error == UnknownSchemaName(schemaName)
    {
      if schemaName in eventSchemaToType then Ok(eventSchemaToType[schemaName])
      else Err(UnknownSchemaName(schemaName))
    }

    function GetSchemaName(t: EventType): (r: Result<string>)
      reads this
      ensures r.Ok? <==> t in eventTypeToSchema
      ensures r.Ok? ==> r.value == eventTypeToSchema[t]
      ensures r.Err? ==> r.error == UnknownEventType(t)
    {
      if t in eventTypeToSchema then Ok(eventTypeToSchema[t])
      else Err(UnknownEventType(t))
    }
  }

  /** In a registry whose dictionaries are inverse, a registered type's name resolves back to the
      type, and a registered name's type resolves back to the name. */
  lemma RoundTrip(registry: EventRegistry, t: EventType, schemaName: string)
    requires registry.Valid()
    ensures registry.GetSchemaName(t).Ok? ==> registry.GetEventType(registry.GetSchemaName(t).value) == Ok(t)
    ensures registry.GetEventType(schemaName).Ok? ==> registry.GetSchemaName(registry.GetEventType(schemaName).value) == Ok(schemaName)
  {
  }
}
