/** The aggregate-root base class: an id, a version counter, the pending (unsaved) events and the
    restoring flag, with Emit, the replay constructor and ClearPendingDomainEvents. */
module Aggregates {
  import opened Events
  import opened Results

  /** What the base class and the store know of one concrete aggregate class: its name (which
      names its table), the state its field initialisers give a new instance, and its override of
      TryApplyEvent, which either handles an event, giving the new state, or rejects it. */
  datatype AggregateType<!S> = AggregateType(name: string, initial: S, tryApplyEvent: (S, Event) -> Option<S>)

  /** The state reached by applying `events` to `s` in order, or the first event rejected. */
  function Replay<S>(tryApplyEvent: (S, Event) -> Option<S>, s: S, events: seq<Event>): (r: Result<S>)
    ensures r.Err? ==> r.error.CannotRestore? && r.error.event in events
    decreases |events|
  {
    if events == [] then Ok(s)
    else
      var last := events[|events| - 1];
      match Replay(tryApplyEvent, s, events[..|events| - 1])
      case Err(e) => Err(e)
      case Ok(t) =>
        match tryApplyEvent(t, last)
        case None => Err(CannotRestore(last))
        case Some(u) => Ok(u)
  }

  /** Once a prefix of the history fails to replay, the whole history fails with the same error:
      the events after the rejected one are never applied. */
  lemma {:induction false} ReplayFailureIsFinal<S>(tryApplyEvent: (S, Event) -> Option<S>, s: S, events: seq<Event>, i: nat)
    requires i <= |events|
    requires Replay(tryApplyEvent, s, events[..i]).Err?
    ensures Replay(tryApplyEvent, s, events) == Replay(tryApplyEvent, s, events[..i])
    decreases |events|
  {
    if i == |events| {
      assert events[..i] == events;
    } else {
      var front := events[..|events| - 1];
      assert front[..i] == events[..i];
      ReplayFailureIsFinal(tryApplyEvent, s, front, i);
    }
  }

  /** A replay that fails names the first event the aggregate rejects: everything before it
      applied, and that event was refused in the state they produced. */
  lemma {:induction false} ReplayStopsAtFirstRejected<S>(tryApplyEvent: (S, Event) -> Option<S>, s: S, events: seq<Event>)
    requires Replay(tryApplyEvent, s, events).Err?
    ensures exists i ::
      && 0 <= i < |events|
      && Replay(tryApplyEvent, s, events[..i]).Ok?
      && tryApplyEvent(Replay(tryApplyEvent, s, events[..i]).value, events[i]).None?
      && Replay(tryApplyEvent, s, events).error == CannotRestore(events[i])
    decreases |events|
  {
    var n := |events| - 1;
    var front := events[..n];
    if Replay(tryApplyEvent, s, front).Err? {
      ReplayStopsAtFirstRejected(tryApplyEvent, s, front);
      var i :| 0 <= i < |front|
        && Replay(tryApplyEvent, s, front[..i]).Ok?
        && tryApplyEvent(Replay(tryApplyEvent, s, front[..i]).value, front[i]).None?
        && Replay(tryApplyEvent, s, front).error == CannotRestore(front[i]);
      assert front[..i] == events[..i];
    } else {
      assert events[..n] == front;
    }
  }

  /** Replaying a concatenation is replaying the first part, then the second from where it ended. */
  lemma {:induction false} ReplayConcat<S>(tryApplyEvent: (S, Event) -> Option<S>, s: S, first: seq<Event>, second: seq<Event>)
    ensures Replay(tryApplyEvent, s, first + second) ==
      match Replay(tryApplyEvent, s, first)
      case Err(e) => Err(e)
      case Ok(t) => Replay(tryApplyEvent, t, second)
    decreases |second|
  {
    if second == [] {
      assert first + second == first;
    } else {
      var front := second[..|second| - 1];
      ReplayConcat(tryApplyEvent, s, first, front);
      assert (first + second)[..|first + second| - 1] == first + front;
      assert (first + second)[|first + second| - 1] == second[|second| - 1];
    }
  }

  class AggregateRoot<S> {
    /** The concrete aggregate class of this instance; it supplies TryApplyEvent. */
    const Type: AggregateType<S>
    var Id: string
    var Version: int
    var PendingDomainEvents: seq<Event>
    var IsRestoring: bool
    /** The fields the concrete class declares (a customer's names, say). */
    var State: S

    /** Version and state when construction finished, and every event Emit has accepted since. */
    ghost var BaseVersion: int
    ghost var BaseState: S
    ghost var Accepted: seq<Event>
    /** The accepted events that ClearPendingDomainEvents has dropped from the pending list. */
    ghost var Cleared: seq<Event>

    /** The object invariant: the version counts the accepted emits on top of the version the
        instance was built with, replaying the accepted events reproduces the state, and the
        pending events are the most recent accepted ones (all of them until a clear). */
    ghost predicate Valid()
      reads this
    {
      && !IsRestoring
      && Version == BaseVersion + |Accepted|
      && Replay(Type.tryApplyEvent, BaseState, Accepted) == Ok(State)
      && Accepted == Cleared + PendingDomainEvents
    }

    /** The constructor for a new aggregate. */
    constructor (aggregateType: AggregateType<S>, id: string)
      ensures Valid()
      ensures Type == aggregateType && Id == id && Version == 0 && PendingDomainEvents == []
      ensures State == aggregateType.initial
      ensures BaseVersion == 0 && BaseState == aggregateType.initial && Accepted == []
    {
      Type := aggregateType;
      Id := id;
      Version := 0;
      PendingDomainEvents := [];
      IsRestoring := false;
      State := aggregateType.initial;
      BaseVersion := 0;
      BaseState := aggregateType.initial;
      Accepted := [];
      Cleared := [];
    }

    /** The part of the replay constructor that runs before its loop. */
    constructor Restoring(aggregateType: AggregateType<S>, id: string, version: int)
      ensures Type == aggregateType && Id == id && Version == version && PendingDomainEvents == []
      ensures IsRestoring && State == aggregateType.initial
      ensures BaseVersion == version && Accepted == [] && Cleared == []
    {
      Type := aggregateType;
      Id := id;
      Version := version;
      PendingDomainEvents := [];
      IsRestoring := true;
      State := aggregateType.initial;
      BaseVersion := version;
      BaseState := aggregateType.initial;
      Accepted := [];
      Cleared := [];
    }

    /** The concrete class's override: handles the event or reports that it does not. */
    method TryApplyEvent(domainEvent: Event) returns (handled: bool)
      modifies this`State
      ensures handled <==> Type.tryApplyEvent(old(State), domainEvent).Some?
      ensures handled ==> State == Type.tryApplyEvent(old(State), domainEvent).value
      ensures !handled ==> State == old(State)
    {
      match Type.tryApplyEvent(State, domainEvent)
      case Some(next) =>
        State := next;
        handled := true;
      case None =>
        handled := false;
    }

    /** Applies the event; only if it is handled is it appended to the pending events and the
        version bumped. A rejected event is dropped without a trace. */
    method Emit(domainEvent: Event)
      modifies this`State, this`PendingDomainEvents, this`Version, this`Accepted
      ensures old(Valid()) ==> Valid()
      ensures Type.tryApplyEvent(old(State), domainEvent).Some? ==>
        && State == Type.tryApplyEvent(old(State), domainEvent).value
        && PendingDomainEvents == old(PendingDomainEvents) + [domainEvent]
        && Version == old(Version) + 1
        && Accepted == old(Accepted) + [domainEvent]
      ensures Type.tryApplyEvent(old(State), domainEvent).None? ==>
        && State == old(State)
        && PendingDomainEvents == old(PendingDomainEvents)
        && Version == old(Version)
        && Accepted == old(Accepted)
    {
      ghost var wasValid := Valid();
      var handled := TryApplyEvent(domainEvent);
      if handled {
        PendingDomainEvents := PendingDomainEvents + [domainEvent];
        Version := Version + 1;
        Accepted := Accepted + [domainEvent];
        if wasValid {
          assert Accepted == Cleared + PendingDomainEvents;
        }
      }
    }

    method ClearPendingDomainEvents()
      modifies this`PendingDomainEvents, this`Cleared
      ensures PendingDomainEvents == []
      ensures old(Valid()) ==> Valid()
    {
      Cleared := Cleared + PendingDomainEvents;
      PendingDomainEvents := [];
    }
  }

  /** The replay constructor: sets the id and the given version, then applies the events in the
      order given, failing on the first one the aggregate rejects. Replayed events never become
      pending and do not move the version. */
  method Restore<S>(aggregateType: AggregateType<S>, id: string, version: int, events: seq<Event>)
    returns (r: Result<AggregateRoot<S>>)
    ensures r.Ok? <==> Replay(aggregateType.tryApplyEvent, aggregateType.initial, events).Ok?
    ensures r.Err? ==> r.error == Replay(aggregateType.tryApplyEvent, aggregateType.initial, events).error
    ensures r.Ok? ==>
      && fresh(r.value) && r.value.Valid()
      && r.value.Type == aggregateType && r.value.Id == id && r.value.Version == version
      && r.value.PendingDomainEvents == []
      && r.value.State == Replay(aggregateType.tryApplyEvent, aggregateType.initial, events).value
      && r.value.BaseVersion == version && r.value.BaseState == r.value.State && r.value.Accepted == []
  {
    var aggregate := new AggregateRoot.Restoring(aggregateType, id, version);
    for i := 0 to |events|
      invariant aggregate.Type == aggregateType && aggregate.Id == id && aggregate.Version == version
      invariant aggregate.PendingDomainEvents == [] && aggregate.IsRestoring
      invariant aggregate.BaseVersion == version && aggregate.Accepted == [] && aggregate.Cleared == []
      invariant Replay(aggregateType.tryApplyEvent, aggregateType.initial, events[..i]) == Ok(aggregate.State)
    {
      assert events[..i + 1][..i] == events[..i];
      var handled := aggregate.TryApplyEvent(events[i]);
      if !handled {
        ReplayFailureIsFinal(aggregateType.tryApplyEvent, aggregateType.initial, events, i + 1);
        return Err(CannotRestore(events[i]));
      }
    }
    assert events[..|events|] == events;
    aggregate.IsRestoring := false;
    aggregate.BaseState := aggregate.State;
    return Ok(aggregate);
  }

  /** Replay determinism: rebuilding an aggregate from the events it emitted since it was created
      (none cleared) at its current version gives the same id, version and state. */
  method ReplayReproducesEmitted<S>(aggregate: AggregateRoot<S>) returns (restored: Result<AggregateRoot<S>>)
    requires aggregate.Valid()
    requires aggregate.BaseVersion == 0 && aggregate.BaseState == aggregate.Type.initial
    requires aggregate.PendingDomainEvents == aggregate.Accepted
    ensures restored.Ok?
    ensures restored.value.Id == aggregate.Id
    ensures restored.value.Version == aggregate.Version == |aggregate.PendingDomainEvents|
    ensures restored.value.State == aggregate.State
    ensures restored.value.PendingDomainEvents == []
  {
    restored := Restore(aggregate.Type, aggregate.Id, aggregate.Version, aggregate.PendingDomainEvents);
  }
}
