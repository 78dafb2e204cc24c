/**
 * Clients of `Emitter` that replay the usage scenarios of the emitter's
 * test suite. Each states, as its postcondition, what the scenario
 * expects, and is proved from the contracts of the emitter's methods.
 */
module Clients {
  import opened Registry
  import opened EventEmitter

  const SomeEvent: EventName := "some_event"
  const OtherEvent: EventName := "other_event"
  const Callback: HandlerId := 1
  const OtherCallback: HandlerId := 2

  /** `on` then `emit` without arguments calls the handler once, with no arguments. */
  method EmitsWithoutArguments() returns (calls: seq<Invocation>)
    ensures calls == [Invocation(Callback, [])]
  {
    var emitter := new Emitter();
    emitter.On(SomeEvent, Plain(Callback));
    assert emitter.events[SomeEvent] == [Plain(Callback)];
    calls := emitter.Emit(SomeEvent, []);
  }

  /** One argument of `emit` reaches the handler unchanged. */
  method EmitsWithOneArgument() returns (calls: seq<Invocation>)
    ensures calls == [Invocation(Callback, ["x"])]
  {
    var emitter := new Emitter();
    emitter.On(SomeEvent, Plain(Callback));
    assert emitter.events[SomeEvent] == [Plain(Callback)];
    calls := emitter.Emit(SomeEvent, ["x"]);
  }

  /** Several arguments of `emit` reach the handler unchanged and in order. */
  method EmitsWithMultipleArguments() returns (calls: seq<Invocation>)
    ensures calls == [Invocation(Callback, ["x", "y"])]
  {
    var emitter := new Emitter();
    emitter.On(SomeEvent, Plain(Callback));
    assert emitter.events[SomeEvent] == [Plain(Callback)];
    calls := emitter.Emit(SomeEvent, ["x", "y"]);
  }

  /** Three emits call a handler registered with `on` three times, once
      per emit, each time with no arguments. */
  method CallsHandlerMultipleTimes() returns (first: seq<Invocation>, second: seq<Invocation>, third: seq<Invocation>)
    ensures first == [Invocation(Callback, [])]
    ensures second == [Invocation(Callback, [])]
    ensures third == [Invocation(Callback, [])]
  {
    var emitter := new Emitter();
    emitter.On(SomeEvent, Plain(Callback));
    assert emitter.events[SomeEvent] == [Plain(Callback)];
    EmitOfPlainKeepsState(emitter.events, SomeEvent);
    first := emitter.Emit(SomeEvent, []);
    second := emitter.Emit(SomeEvent, []);
    third := emitter.Emit(SomeEvent, []);
  }

  /** Emitting one name calls only the handlers of that name. */
  method OnlyRelevantHandler() returns (calls: seq<Invocation>)
    ensures calls == [Invocation(OtherCallback, [])]
  {
    var emitter := new Emitter();
    emitter.On(SomeEvent, Plain(Callback));
    emitter.On(OtherEvent, Plain(OtherCallback));
    assert emitter.events[OtherEvent] == [Plain(OtherCallback)];
    calls := emitter.Emit(OtherEvent, []);
  }

  /** After `removeListener` the handler is no longer in the collection. */
  method RemovesSpecificHandler() returns (registered: bool)
    ensures !registered
  {
    var emitter := new Emitter();
    emitter.On(SomeEvent, Plain(Callback));
    emitter.RemoveListener(SomeEvent, Plain(Callback));
    var handlers := emitter.GetEventsByName(SomeEvent);
    registered := Plain(Callback) in handlers;
  }

  /** After `removeAllListeners` the collection is empty. */
  method RemovesAllHandlers() returns (size: nat)
    ensures size == 0
  {
    var emitter := new Emitter();
    emitter.On(SomeEvent, Plain(Callback));
    emitter.On(SomeEvent, Plain(OtherCallback));
    emitter.RemoveAllListeners(SomeEvent);
    var handlers := emitter.GetEventsByName(SomeEvent);
    size := |handlers|;
  }

  /** A handler registered with `once` is called once by three emits. */
  method OnceCalledAtMostOnce() returns (calls: nat)
    ensures calls == 1
  {
    var emitter := new Emitter();
    emitter.Once(SomeEvent, Callback);
    var w := Wrapper;
    assert emitter.events[SomeEvent] == [w];
    ghost var before := emitter.events;
    var first := emitter.Emit(SomeEvent, []);
    assert emitter.events[SomeEvent] == [] by {
      EmitSurvivors(before, SomeEvent, SomeEvent);
      assert [w][1..] == [];
    }
    var second := emitter.Emit(SomeEvent, []);
    var third := emitter.Emit(SomeEvent, []);
    calls := Count(first, Callback) + Count(second, Callback) + Count(third, Callback);
  }

  /** The wrapper that `once(SomeEvent, Callback)` created, in a fresh emitter. */
  const Wrapper: HandlerRef := HandlerRef.Once(0, SomeEvent, Callback)

  /** An emit of `OtherEvent`, where the wrapper of `SomeEvent` is the only
      entry, calls `Callback` and leaves the wrapper under `OtherEvent`; the
      wrapper's own name is left without it. */
  lemma WrapperLeavesItsOwnName(ev: Events)
    requires Handlers(ev, SomeEvent) == [] || Handlers(ev, SomeEvent) == [Wrapper]
    requires Handlers(ev, OtherEvent) == [Wrapper]
    ensures Dispatch(Handlers(ev, OtherEvent), []) == [Invocation(Callback, [])]
    ensures AfterEmit(ev, OtherEvent)[SomeEvent] == []
    ensures AfterEmit(ev, OtherEvent)[OtherEvent] == [Wrapper]
  {
    EmitSurvivors(ev, OtherEvent, SomeEvent);
    EmitSurvivors(ev, OtherEvent, OtherEvent);
    HomesCover([Wrapper]);
    assert [Wrapper][1..] == [];
  }

  /** A wrapper that `once` created for one name and that is then also
      registered under another name removes itself from the name it was
      created for, not from the name being emitted. So it stays where it
      was registered by hand, and every emit of that name calls it. */
  method WrapperRegisteredElsewhere() returns (first: seq<Invocation>, second: seq<Invocation>, some: seq<HandlerRef>, other: seq<HandlerRef>)
    ensures first == [Invocation(Callback, [])]
    ensures second == [Invocation(Callback, [])]
    ensures some == []
    ensures other == [Wrapper]
  {
    var emitter := new Emitter();
    emitter.Once(SomeEvent, Callback);
    var found := emitter.GetEventsByName(SomeEvent);
    var w := found[0];
    assert w == Wrapper;
    assert w in emitter.events[SomeEvent];
    emitter.On(OtherEvent, w);
    assert Handlers(emitter.events, OtherEvent) == [Wrapper];
    WrapperLeavesItsOwnName(emitter.events);
    first := emitter.Emit(OtherEvent, []);
    WrapperLeavesItsOwnName(emitter.events);
    second := emitter.Emit(OtherEvent, []);
    some := emitter.GetEventsByName(SomeEvent);
    other := emitter.GetEventsByName(OtherEvent);
  }
}
