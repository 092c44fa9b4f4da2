# eventually: aggregate roots, event registry and event store

This project models the core of *eventually*, a small event-sourcing library for .NET.

- An **aggregate root** changes its state only by emitting domain events. Each accepted event is appended to a pending list and bumps the version. A replay constructor rebuilds an aggregate from its history.
- The **event registry** maps stable schema names, the wire names of events, to event types and back.
- The **event store** has two operations.
  - `SaveAsync` appends an aggregate's pending events to the table of its aggregate class. It numbers them after the highest version stored for the aggregate.
  - `Load` reads an aggregate's records in version order and decodes them through the registry. It then calls the replay constructor at the highest stored version.
- The example aggregate is **Customer**, which handles only `CustomerRegistered`.
- The example program registers the event, saves a new customer and loads it back.

The files and their modules:

- `events.dfy` holds the event universe and the library's exceptions as values. `Events` has the two event shapes and their runtime type tags. `Results` has `Error`, `Option`, `Result` and `Outcome`.
- `aggregate_root.dfy` is module `Aggregates`. It holds the generic class `AggregateRoot<S>`, where `S` stands for the fields the concrete class adds. The concrete class's `TryApplyEvent` override is a function value carried in an `AggregateType`, together with the class name and the state the field initialisers give. `Replay` is the specification of the replay loop. Ghost fields record the version and state the instance was built with, the events it has accepted since, and the accepted events a clear has dropped from the pending list. The invariant `Valid()` keeps four facts true: the instance is not restoring, the version equals the base version plus the number of accepted events, replaying the accepted events from the base state gives the current state, and the accepted events are the cleared ones followed by the pending ones.
- `event_registry.dfy` is module `Registry`. It holds the class `EventRegistry` with its two maps. `RegisterStep` is `Register` as written, as a function over the maps. `AtomicRegisterStep` is the corrected version.
- `event_store.dfy` is module `Store`. It holds the record type, the class `EventStore` and the pure pipeline of `Load`: filter, order by version, maximum, decode. It also holds the save/load round-trip lemmas. A store's tables are a map from aggregate class name to a sequence of records.
- `customer.dfy` is module `Customers`: the Customer aggregate.
- `program.dfy` is module `BasicEventSourcing`: the example scenario.

## Model

| member | source | states |
|---|---|---|
| Events.TypeOf | src/Eventually/EventStore.cs:79 | An event's runtime type is `CustomerRegistered` exactly for registration events. |
| Aggregates.Replay | src/Eventually/AggregateRoot.cs:53-59 | Replay fails only with `CannotRestore`, and only for an event of the history. |
| Aggregates.ReplayFailureIsFinal | src/Eventually/AggregateRoot.cs:53-58 | If a prefix of the history fails to replay, the whole history fails with the same error. Later events are never applied. |
| Aggregates.ReplayStopsAtFirstRejected | src/Eventually/AggregateRoot.cs:53-58 | A failing replay names the first rejected event. Every earlier event applied, and this event was refused in the state they produced. |
| Aggregates.ReplayConcat | src/Eventually/AggregateRoot.cs:53-59 | Replaying `a + b` is replaying `a`, then `b` from the state `a` reached. A failure in `a` is final. |
| Aggregates.AggregateRoot.constructor | src/Eventually/AggregateRoot.cs:34-38 | A new aggregate has the given id, version 0, no pending events, the initial state and `IsRestoring` false. It satisfies the invariant. |
| Aggregates.AggregateRoot.Restoring | src/Eventually/AggregateRoot.cs:47-51 | The replay constructor's opening sets the id, the supplied version and `IsRestoring`, with nothing pending. |
| Aggregates.AggregateRoot.TryApplyEvent | src/Eventually/AggregateRoot.cs:91 | Reports `handled` exactly when the override accepts the event. On acceptance the state becomes the override's result; otherwise it is unchanged. |
| Aggregates.AggregateRoot.Emit | src/Eventually/AggregateRoot.cs:77-84 | An accepted event is applied, appended at the end of the pending list, and raises the version by exactly one. A rejected event changes nothing. The invariant is kept. |
| Aggregates.AggregateRoot.ClearPendingDomainEvents | src/Eventually/AggregateRoot.cs:67-70 | The pending list becomes empty. Apart from the ghost record of cleared events, no other field may change, so the version, id and state stay, and the invariant is kept. |
| Aggregates.Restore | src/Eventually/AggregateRoot.cs:47-62 | The replay constructor succeeds exactly when `Replay` does, and otherwise fails with `Replay`'s error. On success the aggregate has the supplied version whatever the number of events, nothing pending, the replayed state, `IsRestoring` false and the invariant. |
| Aggregates.ReplayReproducesEmitted | src/Eventually/AggregateRoot.cs:47-84 | Replay determinism. Rebuilding an aggregate from the events it emitted since creation, at its version, gives the same id, version and state, with nothing pending. |
| Registry.RegisterStep | src/Eventually/EventRegistry.cs:8-17 | `Register` as written. The maps only grow. It succeeds exactly when both name and type are new, and then adds exactly `name→type` and `type→name`. A duplicate name changes nothing. |
| Registry.AtomicRegisterStep | src/Eventually/EventRegistry.cs:8-17 | The corrected `Register`. It has the same success condition and effect, but a failure changes neither map. |
| Registry.RegisterKeepsInverse | src/Eventually/EventRegistry.cs:15-16 | A successful registration keeps the two maps inverse. |
| Registry.RegisterTypeTwiceBreaksInverse | src/Eventually/EventRegistry.cs:8-17 | Registering a registered type under a new name fails with a duplicate-type error. Yet the new name now maps to the type, the type still maps to its old name, and the maps are no longer inverse. |
| Registry.AtomicRegisterKeepsInverse | src/Eventually/EventRegistry.cs:8-17 | The corrected registration keeps the maps inverse whether it succeeds or fails. |
| Registry.AtomicRegisterAgrees | src/Eventually/EventRegistry.cs:8-17 | When the type is not yet registered, the corrected registration behaves exactly as the written one. |
| Registry.EventRegistry.constructor | src/Eventually/EventRegistry.cs:5-6 | A new registry has two empty maps, which are inverse. |
| Registry.EventRegistry.Register | src/Eventually/EventRegistry.cs:8-17 | The outcome and the new maps are those of `RegisterStep` on the old maps. |
| Registry.EventRegistry.RegisterAtomic | src/Eventually/EventRegistry.cs:8-17 | The outcome and the new maps are those of `AtomicRegisterStep`. It keeps the invariant. |
| Registry.EventRegistry.GetEventType | src/Eventually/EventRegistry.cs:19-27 | Returns the type bound to a registered name. It fails with `UnknownSchemaName` exactly when the name is unregistered. |
| Registry.EventRegistry.GetSchemaName | src/Eventually/EventRegistry.cs:29-37 | Returns the name bound to a registered type. It fails with `UnknownEventType` exactly when the type is unregistered. |
| Registry.RoundTrip | src/Eventually/EventRegistry.cs:19-37 | With inverse maps, `GetEventType(GetSchemaName(t)) == t` and `GetSchemaName(GetEventType(n)) == n`. |
| Store.ForAggregate | src/Eventually/EventStore.cs:29 | The filter keeps exactly the records of the given aggregate. |
| Store.InsertByVersion | src/Eventually/EventStore.cs:30 | Inserting into a version-sorted list keeps it sorted and adds exactly the new record. |
| Store.OrderByVersion | src/Eventually/EventStore.cs:30 | The result is sorted by version and is a permutation of the input. |
| Store.OrderBySorted | src/Eventually/EventStore.cs:30 | Ordering records that are already sorted leaves them as they are. |
| Store.OrderByVersionSortsShuffled | src/Eventually/EventStore.cs:30 | Records stored in the version order 2, 1, 3 are ordered 1, 2, 3. |
| Store.MaxVersion | src/Eventually/EventStore.cs:33 | The maximum is the version of some record and bounds all of them. |
| Store.MaxVersionOfPermutation | src/Eventually/EventStore.cs:33 | Reordering the records does not change the maximum. |
| Store.CurrentVersion | src/Eventually/EventStore.cs:65-73 | Save's starting counter is 0 when the aggregate has no records. Otherwise it is the highest stored version of that aggregate. |
| Store.SaveRecords | src/Eventually/EventStore.cs:77-86 | Succeeds exactly when every pending event's type is registered, and then builds one record per pending event. |
| Store.SaveRecordsPointwise | src/Eventually/EventStore.cs:77-86 | Record `i` carries record Id 0, the aggregate id, `clock(i)`, version `current + i + 1`, the registered schema name and the encoded event. A failed save names an unregistered pending event with `UnknownEventType`. |
| Store.SavedNumbering | src/Eventually/EventStore.cs:82-83 | The records of one save all belong to the saved aggregate and are numbered `current + 1`, `current + 2`, … in order. |
| Store.SaveRecordsStep | src/Eventually/EventStore.cs:77-86 | One turn of the loop extends the records built so far by the next event's record, or fails. |
| Store.SaveFailureIsFinal | src/Eventually/EventStore.cs:77-89 | Once a prefix of the pending list fails, the whole save fails with that error, so nothing is appended. |
| Store.EventStore.constructor | src/Eventually/EventStore.cs:13-17 | The store keeps the given data context and registry. |
| Store.EventStore.SaveAsync | src/Eventually/EventStore.cs:63-90 | On success exactly the `SaveRecords` records are appended to the aggregate class's table. On failure no table changes. The aggregate is not modified. |
| Store.EventStore.BuildEventRecords | src/Eventually/EventStore.cs:75-86 | The loop builds exactly `SaveRecords`, including its first failure. |
| Store.DecodeEvents | src/Eventually/EventStore.cs:35-41 | A successful decode gives one event per record. |
| Store.DecodeEventsPointwise | src/Eventually/EventStore.cs:35-41 | Decoding succeeds exactly when every record's schema name is registered and its payload decodes. Event `i` is then the decoded payload of record `i`, so the events keep record order. |
| Store.DecodeEventsSnoc | src/Eventually/EventStore.cs:35-41 | Decoding one more record that decodes appends its event to the decoded events. |
| Store.DecodeEventsConcat | src/Eventually/EventStore.cs:35-41 | Decoding a concatenation concatenates the decoded parts. |
| Store.OrderedHistory | src/Eventually/EventStore.cs:27-33 | Sorting an aggregate's records keeps their number, and the highest version of the sorted records is the one Save starts from. |
| Store.LoadHistoryInVersionOrder | src/Eventually/EventStore.cs:27-41 | A loaded history's events are the aggregate's records, sorted by version and decoded, whatever order they were stored in. |
| Store.LoadHistory | src/Eventually/EventStore.cs:27-41 | No records gives `NoRecords`. Otherwise the version is the aggregate's highest stored version, with one event per record. |
| Store.EventStore.Load | src/Eventually/EventStore.cs:25-56 | Fails with the history's error or the replay's error. Otherwise it returns a fresh aggregate at the highest stored version, with the replayed state and nothing pending. |
| Store.ForAggregateConcat | src/Eventually/EventStore.cs:29 | Filtering a concatenation concatenates the filtered parts. |
| Store.ForAggregateOfOwnRecords | src/Eventually/EventStore.cs:82 | Filtering records that all carry the aggregate's id, as the records Save builds do, keeps all of them in order. |
| Store.ContiguousCurrentVersion | src/Eventually/EventStore.cs:65-73 | When an aggregate's records are numbered 1..n, Save's starting counter is n. |
| Store.SaveKeepsContiguous | src/Eventually/EventStore.cs:65-86 | Saving appends the new records after the aggregate's stored ones. On a table whose records for the aggregate are numbered 1..n, they are numbered n+1, n+2, …, so the numbering stays contiguous. |
| Store.DecodeSaved | src/Eventually/EventStore.cs:35-41 | With inverse registry maps and a decoder that undoes the encoder, the records Save built decode back to the pending events. |
| Store.LoadContiguous | src/Eventually/EventStore.cs:27-41 | A non-empty contiguous history loads in storage order, at the version of its length. |
| Store.SaveThenLoad | src/Eventually/EventStore.cs:27-89 | The round trip. Saving n pending events onto m contiguous stored ones and then loading gives version m + n, with the old events followed by the pending ones in order. |
| Store.LoadRestoresSavedAggregate | src/Eventually/EventStore.cs:27-55 | Saving an aggregate and loading it gives its version, and a history that replays to its state. An aggregate with no history and no events is not found. |
| Customers.Apply | examples/BasicEventSourcing/Customer.cs:32-36 | The names become those of the registration. |
| Customers.TryApplyEvent | examples/BasicEventSourcing/Customer.cs:18-30 | Accepts exactly `CustomerRegistered`, setting the names from it. Any other event is rejected. |
| Customers.New | examples/BasicEventSourcing/Customer.cs:7-9 | A new customer has blank names, version 0 and nothing pending. |
| Customers.Rehydrate | examples/BasicEventSourcing/Customer.cs:11-13 | Rebuilding succeeds exactly when every event is a registration, and the names are those of the last one. Otherwise it fails on an event that is not a registration. |
| Customers.LastNames | examples/BasicEventSourcing/Customer.cs:32-36 | The names a history leaves are blank or those of one of its registrations. |
| Customers.ReplayKeepsLastRegistration | examples/BasicEventSourcing/Customer.cs:18-36 | A history replays exactly when it holds only registrations. Then the names are those of the last one. |
| Customers.Register | examples/BasicEventSourcing/Customer.cs:38-44 | Gives id `id`, version 1, names `f` and `l`, and pending `[CustomerRegistered(id, f, l)]`. |
| Customers.RegisterThenRehydrate | examples/BasicEventSourcing/Customer.cs:11-44 | Replaying `[CustomerRegistered(id, f, l)]` at version 1 gives the id, version and names that `Register(id, f, l)` gave, with nothing pending. |
| BasicEventSourcing.ExampleRegistry | examples/BasicEventSourcing/Program.cs:12-13 | The example registry binds exactly "customers.registered.v1" to the registration event and back. |
| BasicEventSourcing.RegistrationRoundTrip | examples/BasicEventSourcing/Program.cs:21-25 | Saving a new customer's registration into an empty table and loading it gives version 1 and the registration alone, which replays to the registered names. |
| BasicEventSourcing.RunExample | examples/BasicEventSourcing/Program.cs:12-26 | The example saves customer "123" and loads it back with first name "Test" at version 1. |

## Left out

- Entity Framework Core and async/await are not modelled. Each event table is a sequence of records in a map keyed by the aggregate class name. A table the context does not configure reads as empty here; EF Core would throw instead.
- The store-assigned surrogate record Id is not modelled. Save builds its records with Id 0, and they are appended as they are.
- System.Text.Json is not modelled. Serialisation is a pair of function parameters, `encode` and `decode`, and the round-trip lemmas require `decode(encode(e), TypeOf(e)) == Ok(e)`. A payload that deserializes to `null` is not modelled.
- `DateTime.UtcNow` is the parameter `clock`: the record for the i-th pending event gets `clock(i)`.
- Reflection is not modelled: the runtime type, the constructor lookup and its "no constructor" error. An aggregate class is an `AggregateType` value, and an event's runtime type is its tag `TypeOf`.
- Store.EventStore.Load: decoding is strict, with all records decoded before replay starts. In the library the `Select` is lazy, so registry and payload errors surface inside the replay loop, interleaved with the aggregate's rejections. Either way Load fails as a whole. But when a rejected event precedes an undecodable one, the library reports the rejection and the model reports the decode error. The library also calls the replay constructor through `ConstructorInfo.Invoke` (src/Eventually/EventStore.cs:55), so its caller gets `CannotRestore`, `UnknownSchemaName` and payload errors wrapped in `TargetInvocationException`. Only `NoRecords` arrives as a bare `InvalidOperationException`. The model returns each error directly.
- `long` versions are unbounded integers; overflow is not modelled.
- Concurrent saves to the same aggregate are not modelled. The unique index on (AggregateId, AggregateVersion) in src/Eventually/ModelBuilderExtensions.cs:22 is not modelled either. The round-trip lemmas instead require the invariant `Contiguous`, which Save preserves (`SaveKeepsContiguous`).
- Store.OrderByVersion: this is a stable insertion sort. The model does not state which order records with equal versions take.
- The `IAggregateRoot` interface (src/Eventually/EventStore.cs:93-98) has no separate model. The store takes an `AggregateRoot<S>` and reads only its `Id`, its `PendingDomainEvents` and its class name `Type.name`, which stands for `typeof(TAggregate).Name`.
- Aggregates.ReplayReproducesEmitted: an override is modelled as a function of the class's own fields and the event only. A library override that reads `Version`, `Id` or `IsRestoring` sees version k-1 and `IsRestoring` false for the k-th emitted event, but the final version and `IsRestoring` true for every replayed event. Such an override need not replay deterministically, and the lemma does not cover it.
- Aggregates.AggregateRoot.TryApplyEvent: a rejected event leaves the state unchanged, because the override is a function returning `None`. A library override may change its fields and still return false.
- Aggregates.AggregateRoot.Emit: its invariant guarantee is conditional on the invariant holding before the call. `Emit` is `protected`, and the library never calls it during a replay.
- `Load` on an aggregate with no records fails because `Max` over an empty list throws `InvalidOperationException`; the model names this failure `NoRecords`.
- examples/BasicEventSourcing/CustomerRegistered.cs is not part of this model. The event is the constructor `CustomerRegistered(Id, FirstName, LastName)` of `Event`.
- The public setters of `FirstName` and `LastName` are not modelled. The names change only through events.
- Console output in the example program is not modelled. `RunExample` returns the first name it would print.

## Findings

| source | as written | input that shows it | evidently intended | confidence | as-written member | corrected member |
|---|---|---|---|---|---|---|
| src/Eventually/EventRegistry.cs:15-16 | The name-to-type entry is added before the type-to-name `Add`, which throws when the type is already registered. | Register type T as "a", then as "b". The second call fails, but "b" now resolves to T while T still resolves to "a", so the maps are no longer inverse. | Check both keys before changing either map, so a failed registration changes nothing. | not executed | Registry.RegisterTypeTwiceBreaksInverse | Registry.AtomicRegisterKeepsInverse |
