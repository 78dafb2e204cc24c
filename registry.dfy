/**
 * The state of an emitter as a value: a map from event name to the ordered,
 * duplicate-free collection of handlers registered under it. Each public
 * operation of the emitter is specified here as a function from the old
 * map to the new one, and the properties the emitter promises are proved
 * about these functions.
 */
module Registry {
  import opened OrderedSet

  type EventName = string

  /** The identity of a handler function supplied by the caller. */
  type HandlerId = nat

  /** An argument passed to `emit`; argument values are opaque to the emitter. */
  type Value = string

  /** An entry of a handler collection. `Plain(id)` is the caller's own
      function. `Once(wrapper, name, id)` is the wrapper function that
      `once(name, id)` creates: every call of `once` creates a new function,
      so `wrapper` is a fresh identity, and the wrapper keeps the event name
      it was created for, from which it removes itself when it runs. In both
      cases `id` names the caller's function that an emit finally runs. */
  datatype HandlerRef = Plain(id: HandlerId) | Once(wrapper: nat, name: EventName, id: HandlerId)

  /** One call of a caller's handler function, with its argument list. */
  datatype Invocation = Invocation(handler: HandlerId, args: seq<Value>)

  type Events = map<EventName, seq<HandlerRef>>

  /** No collection holds the same entry twice. */
  ghost predicate WellFormed(ev: Events) {
    forall e :: e in ev ==> NoDup(ev[e])
  }

  /** The collection of `e`, with an absent name read as empty. */
  function Handlers(ev: Events, e: EventName): seq<HandlerRef> {
    if e in ev then ev[e] else []
  }

  /** An operation on `e` kept every other name and its collection, and `e`
      is a key afterwards. */
  ghost predicate OthersUnchanged(ev: Events, r: Events, e: EventName) {
    && r.Keys == ev.Keys + {e}
    && forall n :: n in ev && n != e ==> r[n] == ev[n]
  }

  /** Every entry of `r` was an entry of `ev`, under the same name. */
  ghost predicate EntriesFrom(ev: Events, r: Events) {
    forall n, x :: n in r && x in r[n] ==> x in Handlers(ev, n)
  }

  /** No entry of `hs` runs the caller's function `h`. */
  ghost predicate NotRegistered(hs: seq<HandlerRef>, h: HandlerId) {
    forall x :: x in hs ==> x.id != h
  }

  /** The only entry of `hs` that can run `h` is `h` itself, registered with `on`. */
  ghost predicate OnlyPlain(hs: seq<HandlerRef>, h: HandlerId) {
    forall x {:trigger x in hs} :: x in hs && x.id == h ==> x == Plain(h)
  }

  /** Running every entry of `fired` removes `x` from the collection of `n`:
      `x` is one of them and is a wrapper created for `n`. */
  predicate Removed(fired: seq<HandlerRef>, n: EventName, x: HandlerRef) {
    x.Once? && x.name == n && x in fired
  }

  /** The names the wrappers among `f` remove themselves from. */
  function Homes(f: seq<HandlerRef>): set<EventName>
  {
    if f == [] then {}
    else (if f[0].Once? then {f[0].name} else {}) + Homes(f[1..])
  }

  /** Every wrapper among `f` contributes its own name. */
  lemma {:induction false} HomesCover(f: seq<HandlerRef>)
    ensures forall x :: x in f && x.Once? ==> x.name in Homes(f)
  {
    if f != [] {
      HomesCover(f[1..]);
      assert forall x :: x in f ==> x == f[0] || x in f[1..];
    }
  }

  /** Fewer entries remove themselves from fewer names. */
  lemma {:induction false} HomesSubset(a: seq<HandlerRef>, b: seq<HandlerRef>)
    requires forall x :: x in a ==> x in b
    ensures Homes(a) <= Homes(b)
  {
    if a != [] {
      assert a[0] in a;
      assert forall x :: x in a[1..] ==> x in a;
      HomesSubset(a[1..], b);
      HomesCover(b);
    }
  }

  /** One more entry adds at most its own name. */
  lemma {:induction false} HomesAppend(f: seq<HandlerRef>, x: HandlerRef)
    ensures Homes(f + [x]) == Homes(f) + (if x.Once? then {x.name} else {})
  {
    if f != [] {
      assert (f + [x])[0] == f[0];
      assert (f + [x])[1..] == f[1..] + [x];
      HomesAppend(f[1..], x);
    } else {
      assert [x][1..] == [];
    }
  }

  // ----------------------------------------------------------------------
  // The operations, as functions on the map

  /** `getEventsByName`: an existing name is left as it is; an absent one is
      inserted with an empty collection. Either way the returned collection
      is `Handlers(ev, e)`. */
  function Touch(ev: Events, e: EventName): (r: Events)
    ensures e in r && r[e] == Handlers(ev, e)
    ensures e in ev ==> r == ev
    ensures e !in ev ==> r[e] == []
    ensures r == ev[e := Handlers(ev, e)]
    ensures OthersUnchanged(ev, r, e)
    ensures forall n :: Handlers(r, n) == Handlers(ev, n)
    ensures WellFormed(ev) ==> WellFormed(r)
  {
    if e in ev then ev else ev[e := []]
  }

  /** `on`: `h` is added at the tail of the collection of `e`. */
  function AfterOn(ev: Events, e: EventName, h: HandlerRef): (r: Events)
    ensures OthersUnchanged(ev, r, e)
    ensures WellFormed(ev) ==> WellFormed(r)
  {
    ev[e := Add(Handlers(ev, e), h)]
  }

  /** `removeListener`: the entry `h` is deleted from the collection of `e`. */
  function AfterRemove(ev: Events, e: EventName, h: HandlerRef): (r: Events)
    ensures OthersUnchanged(ev, r, e)
    ensures EntriesFrom(ev, r)
    ensures WellFormed(ev) ==> WellFormed(r)
  {
    ev[e := Delete(Handlers(ev, e), h)]
  }

  /** `removeAllListeners`: the collection of `e` is cleared, the key stays. */
  function AfterClear(ev: Events, e: EventName): (r: Events)
    ensures OthersUnchanged(ev, r, e)
    ensures WellFormed(ev) ==> WellFormed(r)
  {
    ev[e := []]
  }

  /** The calls one emit makes over the collection `hs`, in order. */
  function Dispatch(hs: seq<HandlerRef>, args: seq<Value>): (trace: seq<Invocation>)
    ensures |trace| == |hs|
    ensures forall k :: 0 <= k < |hs| ==> trace[k] == Invocation(hs[k].id, args)
  {
    if hs == [] then [] else [Invocation(hs[0].id, args)] + Dispatch(hs[1..], args)
  }

  /** The effect on the map of running the entry `h`: a plain entry changes
      nothing, a once-wrapper removes itself from the name it was created
      for (which `removeListener` makes a key). */
  function Fire(ev: Events, h: HandlerRef): (r: Events)
    ensures r.Keys == ev.Keys + (if h.Once? then {h.name} else {})
    ensures forall n :: n in ev && !(h.Once? && n == h.name) ==> r[n] == ev[n]
    ensures EntriesFrom(ev, r)
    ensures WellFormed(ev) ==> WellFormed(r)
  {
    if h.Once? then AfterRemove(ev, h.name, h) else ev
  }

  /** What is left of the collection `s` of `n` once the entries of `fired`
      have run: the entries that no wrapper removal takes away, in order. */
  function Survivors(s: seq<HandlerRef>, fired: seq<HandlerRef>, n: EventName): (r: seq<HandlerRef>)
    ensures forall x :: x in r ==> x in s && !Removed(fired, n, x)
    ensures forall x :: x in s && !Removed(fired, n, x) ==> x in r
    ensures NoDup(s) ==> NoDup(r)
  {
    if s == [] then []
    else
      var rest := Survivors(s[1..], fired, n);
      assert forall x :: x in s ==> x == s[0] || x in s[1..];
      if Removed(fired, n, s[0]) then
        assert NoDup(s) ==> NoDup(rest) by {
          if NoDup(s) { NoDupTail(s); }
        }
        rest
      else
        assert NoDup(s) ==> NoDup([s[0]] + rest) by {
          if NoDup(s) { NoDupTail(s); NoDupCons(s[0], rest); }
        }
        [s[0]] + rest
  }

  /** The map once the entries of `f` have run, one after the other, on
      `ev`: the loop of `emit`, one `Fire` per entry. */
  function AfterRunning(ev: Events, f: seq<HandlerRef>): Events
    decreases |f|
  {
    if f == [] then ev else Fire(AfterRunning(ev, f[..|f| - 1]), f[|f| - 1])
  }

  /** `emit`'s effect on the map: the name is touched, then every entry of
      its collection runs, so each once-wrapper among them removes itself
      from the name it was created for, and nothing else changes. */
  function AfterEmit(ev: Events, e: EventName): (r: Events)
    ensures r.Keys == ev.Keys + {e} + Homes(Handlers(ev, e))
    ensures EntriesFrom(ev, r)
    ensures WellFormed(ev) ==> WellFormed(r)
  {
    var hs := Handlers(ev, e);
    RunningKeys(Touch(ev, e), hs);
    RunningFrom(Touch(ev, e), hs);
    assert WellFormed(ev) ==> WellFormed(AfterRunning(Touch(ev, e), hs)) by {
      if WellFormed(ev) {
        RunningWellFormed(Touch(ev, e), hs);
      }
    }
    AfterRunning(Touch(ev, e), hs)
  }

  /** `n` successive emits of `e` with `args`: the final map and all the
      calls they make, in order. */
  function EmitRepeatedly(ev: Events, e: EventName, args: seq<Value>, n: nat): (Events, seq<Invocation>)
    decreases n
  {
    if n == 0 then (ev, [])
    else
      var r := EmitRepeatedly(AfterEmit(ev, e), e, args, n - 1);
      (r.0, Dispatch(Handlers(ev, e), args) + r.1)
  }

  /** How many calls of `h` a trace holds. */
  function Count(trace: seq<Invocation>, h: HandlerId): nat {
    if trace == [] then 0
    else (if trace[0].handler == h then 1 else 0) + Count(trace[1..], h)
  }

  // ----------------------------------------------------------------------
  // Facts about the helpers

  lemma {:induction false} CountAppend(a: seq<Invocation>, b: seq<Invocation>, h: HandlerId)
    ensures Count(a + b, h) == Count(a, h) + Count(b, h)
  {
    if a == [] {
      assert a + b == b;
    } else {
      assert (a + b)[0] == a[0];
      assert (a + b)[1..] == a[1..] + b;
      CountAppend(a[1..], b, h);
    }
  }

  /** Removal distributes over concatenation, so the surviving entries keep
      their relative order. */
  lemma {:induction false} SurvivorsAppend(a: seq<HandlerRef>, b: seq<HandlerRef>, f: seq<HandlerRef>, n: EventName)
    ensures Survivors(a + b, f, n) == Survivors(a, f, n) + Survivors(b, f, n)
  {
    if a == [] {
      assert a + b == b;
    } else {
      assert (a + b)[0] == a[0];
      assert (a + b)[1..] == a[1..] + b;
      SurvivorsAppend(a[1..], b, f, n);
    }
  }

  /** A collection none of whose entries is removed is left as it is. */
  lemma {:induction false} SurvivorsNone(s: seq<HandlerRef>, f: seq<HandlerRef>, n: EventName)
    requires forall x :: x in s ==> !Removed(f, n, x)
    ensures Survivors(s, f, n) == s
  {
    if s != [] {
      assert s[0] in s;
      assert forall x :: x in s[1..] ==> x in s;
      SurvivorsNone(s[1..], f, n);
    }
  }

  /** Two runs that remove the same entries of `s` leave the same collection. */
  lemma {:induction false} SurvivorsAgree(s: seq<HandlerRef>, f: seq<HandlerRef>, g: seq<HandlerRef>, n: EventName)
    requires forall x :: x in s ==> (Removed(f, n, x) <==> Removed(g, n, x))
    ensures Survivors(s, f, n) == Survivors(s, g, n)
  {
    if s != [] {
      assert s[0] in s;
      assert forall x :: x in s[1..] ==> x in s;
      SurvivorsAgree(s[1..], f, g, n);
    }
  }

  /** One more wrapper of `n` deleting itself from what is left of `s`
      leaves what running it along with the others leaves. */
  lemma {:induction false} DeleteSurvivor(s: seq<HandlerRef>, f: seq<HandlerRef>, n: EventName, x: HandlerRef)
    requires NoDup(s) && x.Once? && x.name == n
    ensures Delete(Survivors(s, f, n), x) == Survivors(s, f + [x], n)
  {
    if s != [] {
      var y, t := s[0], s[1..];
      NoDupTail(s);
      assert forall z :: z in f + [x] <==> z in f || z == x;
      if Removed(f, n, y) {
        DeleteSurvivor(t, f, n, x);
      } else if y == x {
        assert ([y] + Survivors(t, f, n))[1..] == Survivors(t, f, n);
        SurvivorsAgree(t, f, f + [x], n);
      } else {
        DeleteSurvivor(t, f, n, x);
        assert ([y] + Survivors(t, f, n))[1..] == Survivors(t, f, n);
      }
    }
  }

  /** What running entry `x` does to the collection of `n`. */
  lemma FireSurvivors(m: Events, x: HandlerRef, s: seq<HandlerRef>, f: seq<HandlerRef>, n: EventName)
    requires NoDup(s) && Handlers(m, n) == Survivors(s, f, n)
    ensures Handlers(Fire(m, x), n) == Survivors(s, f + [x], n)
  {
    assert forall z :: z in f + [x] <==> z in f || z == x;
    if x.Once? && x.name == n {
      DeleteSurvivor(s, f, n, x);
    } else {
      SurvivorsAgree(s, f, f + [x], n);
    }
  }

  /** Running `f` then `x` is running `f + [x]`: the step of `emit`'s loop. */
  lemma RunStep(ev: Events, f: seq<HandlerRef>, x: HandlerRef)
    ensures Fire(AfterRunning(ev, f), x) == AfterRunning(ev, f + [x])
  {
    assert (f + [x])[..|f|] == f;
  }

  /** After the entries of `f` have run, the keys are the old ones and the
      names their wrappers removed themselves from. */
  lemma {:induction false} RunningKeys(ev: Events, f: seq<HandlerRef>)
    ensures AfterRunning(ev, f).Keys == ev.Keys + Homes(f)
    decreases |f|
  {
    if f != [] {
      var g, x := f[..|f| - 1], f[|f| - 1];
      assert f == g + [x];
      RunningKeys(ev, g);
      HomesAppend(g, x);
    }
  }

  /** Running entries only ever removes entries. */
  lemma {:induction false} RunningFrom(ev: Events, f: seq<HandlerRef>)
    ensures EntriesFrom(ev, AfterRunning(ev, f))
    decreases |f|
  {
    if f != [] {
      var g := f[..|f| - 1];
      var m := AfterRunning(ev, g);
      RunningFrom(ev, g);
      forall n, y | n in AfterRunning(ev, f) && y in AfterRunning(ev, f)[n]
        ensures y in Handlers(ev, n)
      {
        assert y in Handlers(m, n);
      }
    }
  }

  /** Running entries keeps every collection duplicate-free. */
  lemma {:induction false} RunningWellFormed(ev: Events, f: seq<HandlerRef>)
    requires WellFormed(ev)
    ensures WellFormed(AfterRunning(ev, f))
    decreases |f|
  {
    if f != [] {
      RunningWellFormed(ev, f[..|f| - 1]);
    }
  }

  /** In closed form: after the entries of `f` have run, the collection of
      every name `n`, key or not, holds the entries that are not wrappers of
      `n` among `f`, in their order. */
  lemma {:induction false} RunningSurvivors(ev: Events, f: seq<HandlerRef>, n: EventName)
    requires NoDup(Handlers(ev, n))
    ensures Handlers(AfterRunning(ev, f), n) == Survivors(Handlers(ev, n), f, n)
    decreases |f|
  {
    if f == [] {
      SurvivorsNone(Handlers(ev, n), f, n);
    } else {
      var g, x := f[..|f| - 1], f[|f| - 1];
      assert f == g + [x];
      RunningSurvivors(ev, g, n);
      FireSurvivors(AfterRunning(ev, g), x, Handlers(ev, n), g, n);
    }
  }

  /** A name none of whose wrappers is among `f` keeps its collection. */
  lemma {:induction false} RunningUntouched(ev: Events, f: seq<HandlerRef>, n: EventName)
    requires n !in Homes(f)
    ensures Handlers(AfterRunning(ev, f), n) == Handlers(ev, n)
    decreases |f|
  {
    if f != [] {
      var g, x := f[..|f| - 1], f[|f| - 1];
      assert f == g + [x];
      HomesAppend(g, x);
      RunningUntouched(ev, g, n);
    }
  }

  /** Plain entries change nothing when they run. */
  lemma {:induction false} RunningPlain(ev: Events, f: seq<HandlerRef>)
    requires forall x :: x in f ==> x.Plain?
    ensures AfterRunning(ev, f) == ev
    decreases |f|
  {
    if f != [] {
      assert f[|f| - 1] in f;
      assert forall x :: x in f[..|f| - 1] ==> x in f;
      RunningPlain(ev, f[..|f| - 1]);
    }
  }

  lemma DispatchAppend(a: seq<HandlerRef>, b: seq<HandlerRef>, args: seq<Value>)
    ensures Dispatch(a + b, args) == Dispatch(a, args) + Dispatch(b, args)
  {
    var l, r := Dispatch(a + b, args), Dispatch(a, args) + Dispatch(b, args);
    assert |l| == |r|;
    forall k | 0 <= k < |l| ensures l[k] == r[k] {
      if k < |a| {
        assert (a + b)[k] == a[k];
      } else {
        assert (a + b)[k] == b[k - |a|];
      }
    }
  }

  /** The calls of an emit grow by one call per entry it runs. */
  lemma DispatchStep(hs: seq<HandlerRef>, i: nat, args: seq<Value>)
    requires i < |hs|
    ensures Dispatch(hs[..i + 1], args) == Dispatch(hs[..i], args) + [Invocation(hs[i].id, args)]
  {
    assert hs[..i + 1] == hs[..i] + [hs[i]];
    DispatchAppend(hs[..i], [hs[i]], args);
  }

  // ----------------------------------------------------------------------
  // Properties of emit

  /** The live collection while an emit of `e` runs over the collection
      `hs` it found: after `i` entries it holds what is left of the visited
      entries followed by every entry not yet visited, in order. So running
      the collection found visits exactly what running the live `Set` visits. */
  lemma EmitLive(ev: Events, e: EventName, i: nat)
    requires NoDup(Handlers(ev, e)) && i <= |Handlers(ev, e)|
    ensures var hs := Handlers(ev, e);
      Handlers(AfterRunning(Touch(ev, e), hs[..i]), e) == Survivors(hs[..i], hs[..i], e) + hs[i..]
  {
    var hs := Handlers(ev, e);
    var done := hs[..i];
    assert Handlers(AfterRunning(Touch(ev, e), done), e) == Survivors(hs, done, e) by {
      RunningSurvivors(Touch(ev, e), done, e);
    }
    assert Survivors(hs, done, e) == Survivors(done, done, e) + Survivors(hs[i..], done, e) by {
      assert hs == done + hs[i..];
      SurvivorsAppend(done, hs[i..], done, e);
    }
    assert Survivors(hs[i..], done, e) == hs[i..] by {
      NoDupSplit(hs, i);
      SurvivorsNone(hs[i..], done, e);
    }
  }

  /** In a duplicate-free collection no entry after position `i` occurs before it. */
  lemma NoDupSplit<T>(s: seq<T>, i: nat)
    requires NoDup(s) && i <= |s|
    ensures forall x :: x in s[i..] ==> x !in s[..i]
  {
    forall x | x in s[i..] ensures x !in s[..i] {
      var j :| i <= j < |s| && s[j] == x;
      forall k | 0 <= k < i ensures s[k] != x {
        assert s[k] != s[j];
      }
    }
  }

  /** After an emit of `e`, the collection of every name `n` holds exactly
      the entries that are not wrappers of `n` run by the emit, in order;
      in particular the collection of `e` loses exactly its wrappers of `e`. */
  lemma EmitSurvivors(ev: Events, e: EventName, n: EventName)
    requires NoDup(Handlers(ev, n))
    ensures Handlers(AfterEmit(ev, e), n) == Survivors(Handlers(ev, n), Handlers(ev, e), n)
  {
    RunningSurvivors(Touch(ev, e), Handlers(ev, e), n);
  }

  /** A function that no entry runs is not called by an emit: in particular
      a handler registered only under another name. */
  lemma {:induction false} NotRegisteredNotInvoked(hs: seq<HandlerRef>, h: HandlerId, args: seq<Value>)
    requires NotRegistered(hs, h)
    ensures Count(Dispatch(hs, args), h) == 0
  {
    if hs != [] {
      assert hs[0] in hs;
      assert forall x :: x in hs[1..] ==> x in hs;
      NotRegisteredNotInvoked(hs[1..], h, args);
    }
  }

  /** An emit of `e` calls only functions of entries of `e`. Another name's
      collection loses the wrappers created for it that the emit runs, and
      is unchanged when the emit runs none. */
  lemma EmitIsolation(ev: Events, e: EventName, other: EventName, h: HandlerId, args: seq<Value>)
    requires other != e
    requires h in (set x | x in Handlers(ev, other) :: x.id)
    requires NotRegistered(Handlers(ev, e), h)
    ensures Count(Dispatch(Handlers(ev, e), args), h) == 0
    ensures other in AfterEmit(ev, e)
    ensures other !in Homes(Handlers(ev, e)) ==> AfterEmit(ev, e)[other] == ev[other]
    ensures NoDup(ev[other]) ==>
      AfterEmit(ev, e)[other] == Survivors(ev[other], Handlers(ev, e), other)
  {
    var hs := Handlers(ev, e);
    NotRegisteredNotInvoked(hs, h, args);
    if NoDup(ev[other]) {
      EmitSurvivors(ev, e, other);
    }
    if other !in Homes(hs) {
      RunningUntouched(Touch(ev, e), hs, other);
    }
  }

  /** A wrapper that `once` created for another name, and that was then
      registered under `e` as well, stays under `e` when `e` is emitted; it
      removes itself from its own name instead, and it is called. */
  lemma MovedWrapperStays(ev: Events, e: EventName, o: HandlerRef, args: seq<Value>)
    requires o.Once? && o.name != e && o in Handlers(ev, e)
    requires NoDup(Handlers(ev, e)) && NoDup(Handlers(ev, o.name))
    ensures Invocation(o.id, args) in Dispatch(Handlers(ev, e), args)
    ensures o in AfterEmit(ev, e)[e]
    ensures o.name in AfterEmit(ev, e) && o !in AfterEmit(ev, e)[o.name]
  {
    var hs := Handlers(ev, e);
    var k :| 0 <= k < |hs| && hs[k] == o;
    assert Dispatch(hs, args)[k] == Invocation(o.id, args);
    HomesCover(hs);
    EmitSurvivors(ev, e, e);
    EmitSurvivors(ev, e, o.name);
  }

  /** An emit of a name without entries calls nothing and only creates the
      empty entry. */
  lemma EmitUnknownName(ev: Events, e: EventName, args: seq<Value>)
    requires e !in ev
    ensures Dispatch(Handlers(ev, e), args) == []
    ensures AfterEmit(ev, e) == ev[e := []]
    ensures AfterEmit(ev, e) == Touch(ev, e)
  {
  }

  /** In a duplicate-free collection where only the plain entry of `h` runs
      `h`, one emit calls `h` exactly once. */
  lemma {:induction false} SoleEntryInvokedOnce(hs: seq<HandlerRef>, h: HandlerId, args: seq<Value>)
    requires NoDup(hs) && Plain(h) in hs && OnlyPlain(hs, h)
    ensures Count(Dispatch(hs, args), h) == 1
  {
    NoDupTail(hs);
    assert forall x :: x in hs[1..] ==> x in hs;
    if hs[0] == Plain(h) {
      NotRegisteredNotInvoked(hs[1..], h, args);
    } else {
      assert hs[0] in hs;
      SoleEntryInvokedOnce(hs[1..], h, args);
    }
  }

  /** Emits remove once-wrappers and nothing else: a second emit finds the
      map the first one left, and leaves it as it is. */
  lemma EmitStable(ev: Events, e: EventName)
    requires WellFormed(ev)
    ensures AfterEmit(AfterEmit(ev, e), e) == AfterEmit(ev, e)
  {
    var hs := Handlers(ev, e);
    var r1 := AfterEmit(ev, e);
    var hs1 := Handlers(r1, e);
    assert forall x :: x in hs1 ==> x in hs by {
      EmitSurvivors(ev, e, e);
    }
    var r2 := AfterEmit(r1, e);
    assert r2.Keys == r1.Keys by {
      HomesSubset(hs1, hs);
    }
    forall n | n in r1 ensures r2[n] == r1[n] {
      EmitStableAt(ev, e, n);
    }
  }

  /** The step of `EmitStable` for one name `n`: the wrappers of `n` that
      the second emit runs were all run, and removed, by the first. */
  lemma EmitStableAt(ev: Events, e: EventName, n: EventName)
    requires WellFormed(ev) && n in AfterEmit(ev, e)
    ensures AfterEmit(AfterEmit(ev, e), e)[n] == AfterEmit(ev, e)[n]
  {
    var hs := Handlers(ev, e);
    var r1 := AfterEmit(ev, e);
    var hs1 := Handlers(r1, e);
    assert NoDup(Handlers(ev, e)) && NoDup(Handlers(ev, n)) && NoDup(Handlers(r1, n));
    EmitSurvivors(ev, e, e);
    EmitSurvivors(ev, e, n);
    EmitSurvivors(r1, e, n);
    forall x | x in r1[n] ensures !Removed(hs1, n, x) {
      assert x in hs1 ==> x in hs;
    }
    SurvivorsNone(r1[n], hs1, n);
  }

  /** An emit over plain entries only changes nothing but the lazy key. */
  lemma EmitOfPlainKeepsState(ev: Events, e: EventName)
    requires forall x :: x in Handlers(ev, e) ==> x.Plain?
    ensures AfterEmit(ev, e) == Touch(ev, e)
  {
    RunningPlain(Touch(ev, e), Handlers(ev, e));
  }

  /** `m + 1` emits, unfolded: the calls of the first come first, then
      those of the other `m`, which also decide the final map. */
  lemma EmitRepeatedlyUnfold(ev: Events, e: EventName, args: seq<Value>, m: nat)
    ensures EmitRepeatedly(ev, e, args, m + 1).1
         == Dispatch(Handlers(ev, e), args) + EmitRepeatedly(AfterEmit(ev, e), e, args, m).1
    ensures EmitRepeatedly(ev, e, args, m + 1).0 == EmitRepeatedly(AfterEmit(ev, e), e, args, m).0
  {
    assert m + 1 - 1 == m;
  }

  /** After an emit, the plain entry of `h` is still the only one that runs `h`. */
  lemma OnlyPlainPersists(ev: Events, e: EventName, h: HandlerId)
    requires NoDup(Handlers(ev, e)) && Plain(h) in Handlers(ev, e) && OnlyPlain(Handlers(ev, e), h)
    ensures var next := Handlers(AfterEmit(ev, e), e);
      NoDup(next) && Plain(h) in next && OnlyPlain(next, h)
  {
    var hs := Handlers(ev, e);
    EmitSurvivors(ev, e, e);
    forall x | x in Survivors(hs, hs, e) && x.id == h ensures x == Plain(h) {
      assert x in hs;
    }
  }

  /** The calls of `h` in `m + 1` emits: those of the first, then those
      of the other `m`. */
  lemma CountStep(ev: Events, e: EventName, h: HandlerId, args: seq<Value>, m: nat)
    ensures Count(EmitRepeatedly(ev, e, args, m + 1).1, h)
         == Count(Dispatch(Handlers(ev, e), args), h) + Count(EmitRepeatedly(AfterEmit(ev, e), e, args, m).1, h)
  {
    EmitRepeatedlyUnfold(ev, e, args, m);
    CountAppend(Dispatch(Handlers(ev, e), args), EmitRepeatedly(AfterEmit(ev, e), e, args, m).1, h);
  }

  /** A handler registered with `on`, and by no once-wrapper, is called once
      by each of `n` emits. */
  lemma {:induction false} PlainInvokedEveryEmit(ev: Events, e: EventName, h: HandlerId, args: seq<Value>, n: nat)
    requires NoDup(Handlers(ev, e))
    requires Plain(h) in Handlers(ev, e) && OnlyPlain(Handlers(ev, e), h)
    ensures Count(EmitRepeatedly(ev, e, args, n).1, h) == n
    decreases n
  {
    if n > 0 {
      var next, m := AfterEmit(ev, e), n - 1;
      SoleEntryInvokedOnce(Handlers(ev, e), h, args);
      OnlyPlainPersists(ev, e, h);
      PlainInvokedEveryEmit(next, e, h, args, m);
      CountStep(ev, e, h, args, m);
    }
  }

  /** Once nothing runs `h`, no later emit calls it, and nothing runs it afterwards. */
  lemma {:induction false} NeverInvokedAgain(ev: Events, e: EventName, h: HandlerId, args: seq<Value>, n: nat)
    requires NotRegistered(Handlers(ev, e), h)
    ensures Count(EmitRepeatedly(ev, e, args, n).1, h) == 0
    ensures NotRegistered(Handlers(EmitRepeatedly(ev, e, args, n).0, e), h)
    decreases n
  {
    if n > 0 {
      var hs := Handlers(ev, e);
      var next, m := AfterEmit(ev, e), n - 1;
      NotRegisteredNotInvoked(hs, h, args);
      assert forall x :: x in Handlers(next, e) ==> x in hs;
      NeverInvokedAgain(next, e, h, args, m);
      EmitRepeatedlyUnfold(ev, e, args, m);
      CountStep(ev, e, h, args, m);
    }
  }

  /** The first emit after `once(e, h)` calls `h` once and leaves no entry
      of `e` that runs `h`. */
  lemma OnceFirstEmit(ev: Events, e: EventName, w: nat, h: HandlerId, args: seq<Value>)
    requires NoDup(Handlers(ev, e)) && NotRegistered(Handlers(ev, e), h)
    ensures Count(Dispatch(Handlers(AfterOn(ev, e, Once(w, e, h)), e), args), h) == 1
    ensures NotRegistered(Handlers(AfterEmit(AfterOn(ev, e, Once(w, e, h)), e), e), h)
  {
    var hs := Handlers(ev, e);
    var o := Once(w, e, h);
    var ev1 := AfterOn(ev, e, o);
    assert o !in hs;
    assert Handlers(ev1, e) == hs + [o];
    DispatchAppend(hs, [o], args);
    NotRegisteredNotInvoked(hs, h, args);
    CountAppend(Dispatch(hs, args), Dispatch([o], args), h);
    assert Count(Dispatch([o], args), h) == 1;
    EmitSurvivors(ev1, e, e);
    assert Removed(hs + [o], e, o);
  }

  /** `once(e, h)` followed by `n >= 1` emits of `e` calls `h` exactly once,
      during the first emit, and leaves no wrapper of `h` behind. */
  lemma OnceFiresOnce(ev: Events, e: EventName, w: nat, h: HandlerId, args: seq<Value>, n: nat)
    requires NoDup(Handlers(ev, e)) && NotRegistered(Handlers(ev, e), h)
    requires n >= 1
    ensures Count(Dispatch(Handlers(AfterOn(ev, e, Once(w, e, h)), e), args), h) == 1
    ensures Count(EmitRepeatedly(AfterOn(ev, e, Once(w, e, h)), e, args, n).1, h) == 1
    ensures Once(w, e, h) !in Handlers(EmitRepeatedly(AfterOn(ev, e, Once(w, e, h)), e, args, n).0, e)
  {
    var ev1 := AfterOn(ev, e, Once(w, e, h));
    OnceFirstEmit(ev, e, w, h, args);
    FirstThenNever(ev1, e, h, args, n);
    assert Once(w, e, h).id == h;
  }

  /** When the first emit calls `h` once and leaves nothing that runs it,
      `n >= 1` emits call it exactly once and leave nothing that runs it. */
  lemma FirstThenNever(ev: Events, e: EventName, h: HandlerId, args: seq<Value>, n: nat)
    requires n >= 1
    requires Count(Dispatch(Handlers(ev, e), args), h) == 1
    requires NotRegistered(Handlers(AfterEmit(ev, e), e), h)
    ensures Count(EmitRepeatedly(ev, e, args, n).1, h) == 1
    ensures NotRegistered(Handlers(EmitRepeatedly(ev, e, args, n).0, e), h)
  {
    var next, m := AfterEmit(ev, e), n - 1;
    NeverInvokedAgain(next, e, h, args, m);
    EmitRepeatedlyUnfold(ev, e, args, m);
    CountStep(ev, e, h, args, m);
  }

  // ----------------------------------------------------------------------
  // Properties of registration and removal

  /** `on` appends at the tail only when the entry is absent, so registering
      the same entry twice is the same as registering it once, and no
      collection gains a duplicate. */
  lemma OnNoDuplicates(ev: Events, e: EventName, h: HandlerRef)
    ensures h in Handlers(ev, e) ==> AfterOn(ev, e, h) == Touch(ev, e)
    ensures h !in Handlers(ev, e) ==> AfterOn(ev, e, h)[e] == Handlers(ev, e) + [h]
    ensures AfterOn(AfterOn(ev, e, h), e, h) == AfterOn(ev, e, h)
    ensures NoDup(Handlers(ev, e)) ==> NoDup(AfterOn(ev, e, h)[e])
  {
    var hs := Handlers(ev, e);
    if h !in hs {
      assert Add(hs, h) == hs + [h];
    }
  }

  /** Registering a plain handler twice and emitting once calls it once. */
  lemma RegisteredTwiceInvokedOnce(ev: Events, e: EventName, h: HandlerId, args: seq<Value>)
    requires NoDup(Handlers(ev, e)) && OnlyPlain(Handlers(ev, e), h)
    ensures Count(Dispatch(Handlers(AfterOn(AfterOn(ev, e, Plain(h)), e, Plain(h)), e), args), h) == 1
  {
    OnNoDuplicates(ev, e, Plain(h));
    var hs := Handlers(AfterOn(ev, e, Plain(h)), e);
    SoleEntryInvokedOnce(hs, h, args);
  }

  /** `removeListener(e, h)`: `h` is gone from `e`, the other entries keep
      their relative order, and removing an absent entry only touches `e`. */
  lemma RemoveTargeted(ev: Events, e: EventName, h: HandlerRef)
    requires NoDup(Handlers(ev, e))
    ensures h !in AfterRemove(ev, e, h)[e]
    ensures h in Handlers(ev, e) ==>
      var k := IndexOf(Handlers(ev, e), h);
      AfterRemove(ev, e, h)[e] == Handlers(ev, e)[..k] + Handlers(ev, e)[k + 1..]
    ensures h !in Handlers(ev, e) ==> AfterRemove(ev, e, h) == Touch(ev, e)
  {
    if h in Handlers(ev, e) {
      DeleteAt(Handlers(ev, e), h);
    }
  }

  /** A plain handler registered and then removed is not called by an emit. */
  lemma RemovedNotInvoked(ev: Events, e: EventName, h: HandlerId, args: seq<Value>)
    requires NoDup(Handlers(ev, e)) && OnlyPlain(Handlers(ev, e), h)
    ensures Count(Dispatch(Handlers(AfterRemove(AfterOn(ev, e, Plain(h)), e, Plain(h)), e), args), h) == 0
  {
    var ev1 := AfterOn(ev, e, Plain(h));
    var hs := Handlers(AfterRemove(ev1, e, Plain(h)), e);
    assert NotRegistered(hs, h) by {
      forall x | x in hs ensures x.id != h {
        assert x in Handlers(ev1, e) && x != Plain(h);
      }
    }
    NotRegisteredNotInvoked(hs, h, args);
  }

  /** Removal is by identity: removing the caller's function does not remove
      a once-wrapper around it. */
  lemma RemoveDoesNotCancelOnce(ev: Events, e: EventName, w: nat, h: HandlerId)
    ensures Once(w, e, h) in AfterRemove(AfterOn(ev, e, Once(w, e, h)), e, Plain(h))[e]
  {
  }

  /** `removeAllListeners(e)`: `e` stays a key with an empty collection, so a
      later emit of `e` calls nothing. */
  lemma ClearEmpties(ev: Events, e: EventName, args: seq<Value>)
    ensures e in AfterClear(ev, e) && AfterClear(ev, e)[e] == []
    ensures Dispatch(Handlers(AfterClear(ev, e), e), args) == []
  {
  }
}
