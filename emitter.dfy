/**
 * The object that `EventEmitter()` returns. Its closure variable `events`
 * becomes the field `events`; the JavaScript `Set` of each name becomes a
 * duplicate-free sequence that the methods replace. `nextWrapper` stands for
 * the creation of a new wrapper function by each call of `once`: it is the
 * identity the next wrapper receives. The ghost history `made` records, for
 * every wrapper created so far, the event name and the caller's function it
 * was created for, so that only wrappers `once` really made can be passed
 * back to `on`.
 */
module EventEmitter {
  import opened OrderedSet
  import opened Registry

  /** `x` is a caller's function, or a wrapper that `once` created with
      exactly this name and function. */
  ghost predicate Minted(made: seq<(EventName, HandlerId)>, x: HandlerRef) {
    x.Once? ==> x.wrapper < |made| && made[x.wrapper] == (x.name, x.id)
  }

  /** Every entry of the map is a caller's function or a created wrapper. */
  ghost predicate Genuine(ev: Events, made: seq<(EventName, HandlerId)>) {
    forall n, x :: n in ev && x in ev[n] ==> Minted(made, x)
  }

  /** Replacing the collection of `e` by entries that are all genuine keeps
      the map genuine. */
  lemma GenuineUpdate(ev: Events, e: EventName, s: seq<HandlerRef>, made: seq<(EventName, HandlerId)>)
    requires Genuine(ev, made)
    requires forall x :: x in s ==> Minted(made, x)
    ensures Genuine(ev[e := s], made)
  {
  }

  /** Creating one more wrapper keeps every earlier one genuine. */
  lemma GenuineExtend(ev: Events, made: seq<(EventName, HandlerId)>, p: (EventName, HandlerId))
    requires Genuine(ev, made)
    ensures Genuine(ev, made + [p])
  {
    forall n, x | n in ev && x in ev[n] ensures Minted(made + [p], x) {
      assert Minted(made, x);
    }
  }

  class Emitter {
    var events: Events
    var nextWrapper: nat
    ghost var made: seq<(EventName, HandlerId)>

    ghost predicate Valid()
      reads this
    {
      WellFormed(events) && |made| == nextWrapper && Genuine(events, made)
    }

    constructor ()
      ensures Valid()
      ensures events == map[] && nextWrapper == 0
    {
      events := map[];
      nextWrapper := 0;
      made := [];
    }

    /** `getEventsByName`: the collection of `e`, inserting an empty one
        when `e` was not a key. */
    method GetEventsByName(e: EventName) returns (hs: seq<HandlerRef>)
      requires Valid()
      modifies this
      ensures Valid() && nextWrapper == old(nextWrapper) && made == old(made)
      ensures events == Touch(old(events), e)
      ensures hs == Handlers(old(events), e) && hs == events[e]
    {
      if e !in events {
        events := events[e := []];
      }
      hs := events[e];
    }

    /** `on`: adds `h` at the tail of the collection of `e` unless it is
        there already. A once-wrapper can only come from `once`, which has
        created it for its own name and function. */
    method On(e: EventName, h: HandlerRef)
      requires Valid()
      requires Minted(made, h)
      modifies this
      ensures Valid() && nextWrapper == old(nextWrapper) && made == old(made)
      ensures events == AfterOn(old(events), e, h)
    {
      var hs := GetEventsByName(e);
      GenuineUpdate(events, e, Add(hs, h), made);
      events := events[e := Add(hs, h)];
    }

    /** `removeListener`: deletes the entry `h` from the collection of `e`. */
    method RemoveListener(e: EventName, h: HandlerRef)
      requires Valid()
      modifies this
      ensures Valid() && nextWrapper == old(nextWrapper) && made == old(made)
      ensures events == AfterRemove(old(events), e, h)
    {
      var hs := GetEventsByName(e);
      GenuineUpdate(events, e, Delete(hs, h), made);
      events := events[e := Delete(hs, h)];
    }

    /** `removeAllListeners`: clears the collection of `e`; the key stays. */
    method RemoveAllListeners(e: EventName)
      requires Valid()
      modifies this
      ensures Valid() && nextWrapper == old(nextWrapper) && made == old(made)
      ensures events == AfterClear(old(events), e)
    {
      var hs := GetEventsByName(e);
      GenuineUpdate(events, e, [], made);
      events := events[e := []];
    }

    /** `once`: creates a new wrapper around `h` for the name `e` and
        registers it under `e`. The wrapper is new, so it always lands at
        the tail. */
    method Once(e: EventName, h: HandlerId)
      requires Valid()
      modifies this
      ensures Valid() && nextWrapper == old(nextWrapper) + 1
      ensures made == old(made) + [(e, h)]
      ensures events == AfterOn(old(events), e, HandlerRef.Once(old(nextWrapper), e, h))
      ensures events[e] == Handlers(old(events), e) + [HandlerRef.Once(old(nextWrapper), e, h)]
    {
      var w := nextWrapper;
      assert HandlerRef.Once(w, e, h) !in Handlers(events, e) by {
        if e in events {
          forall x | x in events[e] ensures x != HandlerRef.Once(w, e, h) {
            assert Minted(made, x);
          }
        }
      }
      GenuineExtend(events, made, (e, h));
      made := made + [(e, h)];
      nextWrapper := nextWrapper + 1;
      On(e, HandlerRef.Once(w, e, h));
      assert Add(Handlers(old(events), e), HandlerRef.Once(w, e, h))
        == Handlers(old(events), e) + [HandlerRef.Once(w, e, h)];
    }

    /** Runs one entry of a collection with `args`. A plain entry is the
        caller's function itself; a once-wrapper first removes itself from
        the collection of the name it was created for, then calls the
        function it wraps. */
    method Run(h: HandlerRef, args: seq<Value>) returns (call: Invocation)
      requires Valid()
      modifies this
      ensures Valid() && nextWrapper == old(nextWrapper) && made == old(made)
      ensures call == Invocation(h.id, args)
      ensures events == Fire(old(events), h)
    {
      if h.Once? {
        RemoveListener(h.name, h);
      }
      call := Invocation(h.id, args);
    }

    /** `emit`: runs every entry of the collection of `e`, in order, with
        `args`, and returns the calls of the caller's functions this makes. */
    method Emit(e: EventName, args: seq<Value>) returns (trace: seq<Invocation>)
      requires Valid()
      modifies this
      ensures Valid() && nextWrapper == old(nextWrapper) && made == old(made)
      ensures trace == Dispatch(Handlers(old(events), e), args)
      ensures events == AfterEmit(old(events), e)
    {
      var hs := GetEventsByName(e);
      ghost var before := events;
      assert hs[..0] == [];
      trace := [];
      var i := 0;
      while i < |hs|
        invariant 0 <= i <= |hs|
        invariant Valid() && nextWrapper == old(nextWrapper) && made == old(made)
        invariant events == AfterRunning(before, hs[..i])
        invariant trace == Dispatch(hs[..i], args)
      {
        assert hs[..i + 1] == hs[..i] + [hs[i]];
        RunStep(before, hs[..i], hs[i]);
        DispatchStep(hs, i, args);
        var call := Run(hs[i], args);
        trace := trace + [call];
        i := i + 1;
      }
      assert hs[..|hs|] == hs;
    }
  }
}
