/** The handler registry of src/events.ts. An Emitter keeps, per event, a
    JavaScript Set of callbacks: insertion-ordered and free of duplicates.
    Here a set is a sequence without repetitions in insertion order, and a
    callback is a value: a handler registered with `on`, or the wrapper
    closure `once` registers around a handler. Every wrapper is a new
    function object, so each carries the serial number of its creation. */
module Events {

  datatype Callback<H> = Call(handler: H) | Wrapper(handler: H, serial: nat)

  /** What `on` and `once` return: dispose() removes that callback from that event. */
  datatype Disposable<E, H> = Disposable(event: E, callback: Callback<H>)

  // ---------------------------------------------------------------------------
  // Insertion-ordered sets as sequences

  predicate NoDups<T(==)>(s: seq<T>)
  {
    forall i, j :: 0 <= i < j < |s| ==> s[i] != s[j]
  }

  /** Set.prototype.add: appends x unless it is already a member. */
  function Add<T(==)>(s: seq<T>, x: T): (r: seq<T>)
    ensures x in r
    ensures |r| == if x in s then |s| else |s| + 1
    ensures r[..|s|] == s
    ensures |r| > |s| ==> r[|s|] == x
    ensures NoDups(s) ==> NoDups(r)
  {
    if x in s then s else s + [x]
  }

  /** Set.prototype.delete: drops x, keeping the order of the other members. */
  function Remove<T(==)>(s: seq<T>, x: T): (r: seq<T>)
  {
    if s == [] then [] else if s[|s| - 1] == x then Remove(s[..|s| - 1], x) else Remove(s[..|s| - 1], x) + [s[|s| - 1]]
  }

  /** Removal keeps the other members and their order, and without x present changes nothing. */
  lemma {:induction false} RemoveMembers<T>(s: seq<T>, x: T)
    ensures forall y :: y in Remove(s, x) <==> y in s && y != x
    ensures x !in s ==> Remove(s, x) == s
    ensures NoDups(s) ==> NoDups(Remove(s, x))
    ensures NoDups(s) && x in s ==> |Remove(s, x)| == |s| - 1
  {
    if s != [] {
      var init := s[..|s| - 1];
      assert s == init + [s[|s| - 1]];
      RemoveMembers(init, x);
      if NoDups(s) {
        assert NoDups(init) by {
          forall i, j | 0 <= i < j < |init| ensures init[i] != init[j] {
            assert init[i] == s[i] && init[j] == s[j];
          }
        }
        assert s[|s| - 1] !in init by {
          forall k | 0 <= k < |init| ensures init[k] != s[|s| - 1] {
            assert init[k] == s[k];
          }
        }
      }
    }
  }

  lemma RemoveAppend<T>(a: seq<T>, b: seq<T>, x: T)
    requires x !in a
    ensures Remove(a + b, x) == a + Remove(b, x)
    decreases |b|
  {
    if b == [] {
      RemoveMembers(a, x);
      assert a + b == a;
    } else {
      var init := b[..|b| - 1];
      assert (a + b)[..|a + b| - 1] == a + init;
      RemoveAppend(a, init, x);
      assert a + init + [b[|b| - 1]] == a + (init + [b[|b| - 1]]);
    }
  }

  /** Removing the first member of a set drops exactly that member. */
  lemma {:induction false} RemoveHead<T>(x: T, t: seq<T>)
    requires x !in t
    ensures Remove([x] + t, x) == t
    decreases |t|
  {
    if t != [] {
      var init := t[..|t| - 1];
      assert ([x] + t)[..|[x] + t| - 1] == [x] + init;
      RemoveHead(x, init);
      assert init + [t[|t| - 1]] == t;
    } else {
      assert [x] + t == [x];
      assert [x][..0] == [];
    }
  }

  // ---------------------------------------------------------------------------
  // What one emit leaves behind

  /** Whether a callback removes itself when it is called. A `once` wrapper
      always does; a plain handler does when `disposes` says so, which is how
      wrappers such as oncePacket's dispose themselves. */
  predicate Disposes<H>(c: Callback<H>, disposes: H -> bool)
  {
    c.Wrapper? || disposes(c.handler)
  }

  /** The callbacks of a snapshot that are still registered after each was called once. */
  function Survivors<H>(s: seq<Callback<H>>, disposes: H -> bool): (r: seq<Callback<H>>)
  {
    if s == [] then []
    else
      var init := Survivors(s[..|s| - 1], disposes);
      if Disposes(s[|s| - 1], disposes) then init else init + [s[|s| - 1]]
  }

  /** The survivors are the callbacks of the snapshot that do not dispose of
      themselves; in particular no `once` callback survives the emit. */
  lemma {:induction false} SurvivorsMembers<H>(s: seq<Callback<H>>, disposes: H -> bool)
    ensures forall c :: c in Survivors(s, disposes) <==> c in s && !Disposes(c, disposes)
    ensures forall c :: c in Survivors(s, disposes) ==> !c.Wrapper?
  {
    if s != [] {
      assert s == s[..|s| - 1] + [s[|s| - 1]];
      SurvivorsMembers(s[..|s| - 1], disposes);
    }
  }

  lemma SurvivorsStep<H>(s: seq<Callback<H>>, i: nat, disposes: H -> bool)
    requires i < |s|
    ensures Survivors(s[..i + 1], disposes) ==
      if Disposes(s[i], disposes) then Survivors(s[..i], disposes) else Survivors(s[..i], disposes) + [s[i]]
  {
    assert s[..i + 1][..i] == s[..i];
  }

  /** The set of an event in a registry, empty when the event has none. */
  function SetOf<E, H>(handlers: map<E, seq<Callback<H>>>, event: E): seq<Callback<H>>
  {
    if event in handlers then handlers[event] else []
  }

  /** The registry after one emit of the event. */
  function Emitted<E, H>(handlers: map<E, seq<Callback<H>>>, event: E, disposes: H -> bool): map<E, seq<Callback<H>>>
  {
    if event in handlers then handlers[event := Survivors(handlers[event], disposes)] else handlers
  }

  // ---------------------------------------------------------------------------
  // Emitter

  class Emitter<E(==), H(==)> {
    /** The Map from events to their Sets of callbacks. */
    var handlers: map<E, seq<Callback<H>>>
    /** How many `once` wrappers have been made. */
    var serials: nat

    /** Every set of callbacks is a set: no callback twice. */
    ghost predicate Valid()
      reads this
    {
      forall e :: e in handlers ==> NoDups(handlers[e])
    }

    /** The set of an event, empty when the event has none. */
    function Get(event: E): seq<Callback<H>>
      reads this
    {
      SetOf(handlers, event)
    }

    constructor ()
      ensures handlers == map[] && serials == 0 && Valid()
    {
      handlers := map[];
      serials := 0;
    }

    /** Adds c to the set of the event, creating the set when there is none. */
    method Register(event: E, c: Callback<H>)
      requires Valid()
      modifies this
      ensures Valid() && serials == old(serials)
      ensures handlers == old(handlers)[event := Add(old(Get(event)), c)]
    {
      var current := if event in handlers then handlers[event] else [];
      handlers := handlers[event := Add(current, c)];
    }

    /** on(event, handler). */
    method On(event: E, handler: H) returns (d: Disposable<E, H>)
      requires Valid()
      modifies this
      ensures Valid() && serials == old(serials)
      ensures handlers == old(handlers)[event := Add(old(Get(event)), Call(handler))]
      ensures d == Disposable(event, Call(handler))
    {
      Register(event, Call(handler));
      d := Disposable(event, Call(handler));
    }

    /** once(event, handler): registers a new wrapper that calls the handler
        and then disposes of itself. */
    method Once(event: E, handler: H) returns (d: Disposable<E, H>)
      requires Valid()
      modifies this
      ensures Valid() && serials == old(serials) + 1
      ensures d == Disposable(event, Wrapper(handler, old(serials)))
      ensures handlers == old(handlers)[event := Add(old(Get(event)), d.callback)]
    {
      var wrapper := Wrapper(handler, serials);
      serials := serials + 1;
      Register(event, wrapper);
      d := Disposable(event, wrapper);
    }

    /** off(event, handler), also named removeListener: false when the event
        has no set, otherwise whether the callback was a member. The set
        stays in the map even when it becomes empty. */
    method Off(event: E, c: Callback<H>) returns (found: bool)
      requires Valid()
      modifies this
      ensures Valid() && serials == old(serials)
      ensures event !in old(handlers) ==> !found && handlers == old(handlers)
      ensures event in old(handlers) ==>
        found == (c in old(handlers)[event]) &&
        handlers == old(handlers)[event := Remove(old(handlers)[event], c)]
    {
      if event !in handlers {
        return false;
      }
      found := c in handlers[event];
      RemoveMembers(handlers[event], c);
      handlers := handlers[event := Remove(handlers[event], c)];
    }

    /** dispose() of what on or once returned. */
    method Dispose(d: Disposable<E, H>) returns (found: bool)
      requires Valid()
      modifies this
      ensures Valid() && serials == old(serials)
      ensures found <==> d.callback in old(Get(d.event))
      ensures handlers == if d.event in old(handlers)
        then old(handlers)[d.event := Remove(old(handlers)[d.event], d.callback)] else old(handlers)
      ensures d.callback !in Get(d.event)
      ensures forall c :: c in Get(d.event) <==> c in old(Get(d.event)) && c != d.callback
    {
      ghost var before := Get(d.event);
      found := Off(d.event, d.callback);
      RemoveMembers(before, d.callback);
      assert Get(d.event) == Remove(before, d.callback);
    }

    /** emit(event): false, calling nothing, when the event has no callbacks;
        otherwise calls the callbacks of a snapshot of the set in insertion
        order and returns true. The callbacks' own effects are not modelled
        except their removing themselves, which `disposes` decides for the
        plain handlers and which every `once` wrapper does. */
    method Emit(event: E, disposes: H -> bool) returns (called: seq<Callback<H>>, fired: bool)
      requires Valid()
      modifies this
      ensures Valid() && serials == old(serials)
      ensures called == old(Get(event))
      ensures fired <==> called != []
      ensures handlers == Emitted(old(handlers), event, disposes)
    {
      if event !in handlers || |handlers[event]| == 0 {
        if event in handlers {
          assert handlers == handlers[event := Survivors(handlers[event], disposes)];
        }
        return [], false;
      }
      var snapshot := handlers[event];
      called := [];
      var i := 0;
      assert Pending(snapshot, 0, disposes) == snapshot by {
        assert snapshot[..0] == [] && [] + snapshot[0..] == snapshot;
      }
      assert handlers == handlers[event := snapshot];
      while i < |snapshot|
        invariant 0 <= i <= |snapshot|
        invariant Valid() && serials == old(serials)
        invariant NoDups(snapshot) && called == snapshot[..i]
        invariant handlers == old(handlers)[event := Pending(snapshot, i, disposes)]
      {
        var c := snapshot[i];
        TakeOneMore(snapshot, i);
        called := called + [c];
        EmitStep(snapshot, i, disposes);
        if Disposes(c, disposes) {
          ghost var pending := handlers[event];
          var _ := Off(event, c);
          UpdateTwice(old(handlers), event, pending, Remove(pending, c));
        }
        i := i + 1;
      }
      assert Pending(snapshot, i, disposes) == Survivors(snapshot, disposes) by {
        assert snapshot[..i] == snapshot;
        assert snapshot[i..] == [];
      }
      fired := true;
    }
  }

  lemma UpdateTwice<K, V>(m: map<K, V>, k: K, a: V, b: V)
    ensures m[k := a][k := b] == m[k := b]
  {
  }

  lemma TakeOneMore<T>(s: seq<T>, i: nat)
    requires i < |s|
    ensures s[..i + 1] == s[..i] + [s[i]]
  {
  }

  /** The set of the event in the middle of an emit that has called snapshot[..i]. */
  function Pending<H>(snapshot: seq<Callback<H>>, i: nat, disposes: H -> bool): seq<Callback<H>>
    requires i <= |snapshot|
  {
    Survivors(snapshot[..i], disposes) + snapshot[i..]
  }

  /** One turn of emit: calling snapshot[i] moves it from the pending part
      of the set into the survivors, or removes it when it disposes of itself. */
  lemma EmitStep<H>(snapshot: seq<Callback<H>>, i: nat, disposes: H -> bool)
    requires i < |snapshot| && NoDups(snapshot)
    ensures var before, after := Pending(snapshot, i, disposes), Pending(snapshot, i + 1, disposes);
      if Disposes(snapshot[i], disposes) then Remove(before, snapshot[i]) == after else before == after
  {
    SurvivorsStep(snapshot, i, disposes);
    var done := Survivors(snapshot[..i], disposes);
    if Disposes(snapshot[i], disposes) {
      RemoveFromSnapshot(snapshot, i, done, disposes);
    } else {
      assert snapshot[i..] == [snapshot[i]] + snapshot[i + 1..];
      assert done + ([snapshot[i]] + snapshot[i + 1..]) == (done + [snapshot[i]]) + snapshot[i + 1..];
    }
  }

  /** While an emit walks a snapshot without repetitions, the callback it
      reaches is not among the survivors so far, so removing it drops exactly
      that callback. */
  lemma RemoveFromSnapshot<H>(snapshot: seq<Callback<H>>, i: nat, done: seq<Callback<H>>, disposes: H -> bool)
    requires i < |snapshot| && NoDups(snapshot) && done == Survivors(snapshot[..i], disposes)
    ensures Remove(done + snapshot[i..], snapshot[i]) == done + snapshot[i + 1..]
  {
    SurvivorsMembers(snapshot[..i], disposes);
    assert snapshot[i] !in snapshot[..i] by {
      forall k | 0 <= k < i ensures snapshot[..i][k] != snapshot[i] {
        assert snapshot[..i][k] == snapshot[k];
      }
    }
    RemoveAppend(done, snapshot[i..], snapshot[i]);
    var rest := snapshot[i..];
    assert NoDups(rest) by {
      forall a, b | 0 <= a < b < |rest| ensures rest[a] != rest[b] {
        assert rest[a] == snapshot[i + a] && rest[b] == snapshot[i + b];
      }
    }
    assert rest[0] !in rest[1..] by {
      forall k | 1 <= k < |rest| ensures rest[k] != rest[0] { }
    }
    assert rest == [rest[0]] + rest[1..];
    RemoveHead(rest[0], rest[1..]);
    assert rest[1..] == snapshot[i + 1..];
  }

  // ---------------------------------------------------------------------------
  // The registry seen from its callers

  /** After on(event, handler), emit(event) calls the handler and returns true. */
  method OnThenEmit<E(==), H(==)>(emitter: Emitter<E, H>, event: E, handler: H, disposes: H -> bool)
    returns (called: seq<Callback<H>>, fired: bool)
    requires emitter.Valid()
    modifies emitter
    ensures Call(handler) in called && fired
  {
    var _ := emitter.On(event, handler);
    called, fired := emitter.Emit(event, disposes);
  }

  /** Registering the same handler twice leaves one copy in the set. */
  method OnTwice<E(==), H(==)>(emitter: Emitter<E, H>, event: E, handler: H)
    requires emitter.Valid()
    modifies emitter
    ensures emitter.Get(event) == Add(old(emitter.Get(event)), Call(handler))
    ensures NoDups(emitter.Get(event))
  {
    var _ := emitter.On(event, handler);
    var _ := emitter.On(event, handler);
  }

  /** A once handler is called by the first emit after it is registered and by no later one. */
  method OnceThenEmitTwice<E(==), H(==)>(emitter: Emitter<E, H>, event: E, handler: H, disposes: H -> bool)
    returns (d: Disposable<E, H>, first: seq<Callback<H>>, second: seq<Callback<H>>)
    requires emitter.Valid()
    modifies emitter
    ensures d.callback.handler == handler
    ensures d.callback in first && d.callback !in second
  {
    d := emitter.Once(event, handler);
    var fired;
    first, fired := emitter.Emit(event, disposes);
    SurvivorsMembers(first, disposes);
    second, fired := emitter.Emit(event, disposes);
  }
}
