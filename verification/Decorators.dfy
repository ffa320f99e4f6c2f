/** The ES decorator engine: one array per class that holds the metadata and every list of
    initializers, filled while decorators are applied from last to first. */
module Decorators {
  import opened Wrappers

  /** A function, by identity. */
  datatype Fn = Fn(id: nat)

  /** What a decorator is given, and what it may replace: nothing for a field, a function for
      a class, method, getter or setter, a pair for an accessor. */
  datatype Value = Absent | Function(f: Fn) | Pair(getter: Fn, setter: Fn)

  /** A property of a returned object. */
  datatype Property = Undefined | Callable(f: Fn) | NotCallable

  datatype Return =
    | ReturnsUndefined
    | ReturnsFunction(f: Fn)
    | ReturnsObject(getter: Property, setter: Property, init: Property)
    | ReturnsOther
    | Throws

  datatype Error = Raised | AlreadyInitialized | FunctionExpected | ObjectExpected

  /** A call of the `addInitializer` of context `ctx`, which need not be the caller's own; an
      argument that is no function is None. A failure may be caught by the decorator. */
  datatype Attempt = Attempt(ctx: nat, fn: Option<Fn>, caught: bool)

  /** A decorator: the calls of `addInitializer` it makes, and what it returns. */
  datatype Decorator = Decorator(attempts: seq<Attempt>, ret: Value -> Return)

  datatype Slot = Hole | Metadata(m: nat) | List(fns: seq<Fn>)

  /** A context object: the slot its initializers go to, and its `done` flag. */
  datatype Context = Context(slot: nat, done: bool)

  datatype State = State(slots: seq<Slot>, contexts: seq<Context>)

  const CLASS: nat := 0
  const ACCESSOR: nat := 4
  const FIELD: nat := 5

  /** A decorated element: its kind (class, method, getter, setter, accessor or field). */
  datatype Element = Element(kind: nat, isStatic: bool, decorators: seq<Decorator>, value: Value)

  predicate HasOwnSlots(kind: nat) {
    kind > 3
  }

  ghost predicate ElementOk(e: Element) {
    && e.kind <= FIELD
    && (if e.kind == FIELD then e.value.Absent? else if e.kind == ACCESSOR then e.value.Pair? else e.value.Function?)
  }

  function Start(metadata: nat): State {
    State([Hole, Hole, Hole, Metadata(metadata)], [])
  }

  // ----- the invariant of the array

  /** Slots 0 to 2 are the shared lists, slot 3 the metadata, the rest lists in pairs; every
      context points at a list. */
  ghost predicate Valid(st: State) {
    && |st.slots| >= 4 && |st.slots| % 2 == 0 && st.slots[3].Metadata?
    && (forall i :: 0 <= i < 3 ==> !st.slots[i].Metadata?)
    && (forall i :: 4 <= i < |st.slots| ==> st.slots[i].List?)
    && forall c :: 0 <= c < |st.contexts| ==> st.contexts[c].slot < |st.slots| && st.slots[st.contexts[c].slot].List?
  }

  /** The decorators of all contexts have returned. */
  ghost predicate AllDone(st: State) {
    forall c :: 0 <= c < |st.contexts| ==> st.contexts[c].done
  }

  /** The same slots, where lists have stayed lists. */
  ghost predicate SameShape(st: State, after: State) {
    && |after.slots| == |st.slots|
    && forall i :: 0 <= i < |st.slots| && st.slots[i].List? ==> after.slots[i].List?
  }

  // ----- the steps

  /** `context.addInitializer(fn)`. */
  function AddInitializer(st: State, ctx: nat, fn: Option<Fn>): (r: Result<State, Error>)
    requires Valid(st)
    ensures r.Success? ==> Valid(r.value) && SameShape(st, r.value) && r.value.contexts == st.contexts
  {
    if ctx >= |st.contexts| then Failure(Raised)
    else if st.contexts[ctx].done then Failure(AlreadyInitialized)
    else if fn.None? then Failure(FunctionExpected)
    else
      var j := st.contexts[ctx].slot;
      Success(st.(slots := st.slots[j := List(st.slots[j].fns + [fn.value])]))
  }

  /** The body of a decorator up to its return: the state, and the error it dies of, if any. */
  function Perform(st: State, attempts: seq<Attempt>): (r: (State, Option<Error>))
    requires Valid(st)
    ensures Valid(r.0) && SameShape(st, r.0) && r.0.contexts == st.contexts
    decreases |attempts|
  {
    if attempts == [] then (st, None)
    else
      match AddInitializer(st, attempts[0].ctx, attempts[0].fn)
      case Success(next) => Perform(next, attempts[1..])
      case Failure(e) => if attempts[0].caught then Perform(st, attempts[1..]) else (st, Some(e))
  }

  function Unshift(st: State, j: nat, fn: Fn): (r: State)
    requires Valid(st) && 4 <= j < |st.slots|
    ensures Valid(r) && SameShape(st, r) && r.contexts == st.contexts
  {
    st.(slots := st.slots[j := List([fn] + st.slots[j].fns)])
  }

  /** What is done with the value a decorator returned. */
  function Accept(st: State, kind: nat, j: nat, value: Value, ret: Return): (r: (State, Result<Value, Error>))
    requires Valid(st) && kind <= FIELD && (kind == ACCESSOR ==> value.Pair?)
    requires HasOwnSlots(kind) ==> 5 <= j < |st.slots|
    ensures Valid(r.0) && SameShape(st, r.0) && r.0.contexts == st.contexts
    ensures r.1.Success? && kind == ACCESSOR ==> r.1.value.Pair?
  {
    match ret
    case ReturnsUndefined => (st, Success(value))
    case Throws => (st, Failure(Raised))
    case ReturnsFunction(f) =>
      if kind == ACCESSOR then (st, Failure(ObjectExpected))
      else if kind == FIELD then (Unshift(st, j - 1, f), Success(value))
      else (st, Success(Function(f)))
    case ReturnsObject(getter, setter, init) =>
      if kind != ACCESSOR then (st, Failure(FunctionExpected))
      else if getter.NotCallable? || setter.NotCallable? || init.NotCallable? then (st, Failure(FunctionExpected))
      else
        (if init.Callable? then Unshift(st, j - 1, init.f) else st,
         Success(Pair(if getter.Callable? then getter.f else value.getter, if setter.Callable? then setter.f else value.setter)))
    case ReturnsOther => (st, Failure(if kind == ACCESSOR then ObjectExpected else FunctionExpected))
  }

  /** One iteration: a fresh context, the call, `done`, and what was returned. */
  function Apply(st: State, kind: nat, j: nat, value: Value, d: Decorator): (r: (State, Result<Value, Error>))
    requires Valid(st) && kind <= FIELD && (kind == ACCESSOR ==> value.Pair?)
    requires j < |st.slots| && st.slots[j].List? && (HasOwnSlots(kind) ==> 5 <= j)
    ensures Valid(r.0) && SameShape(st, r.0) && |r.0.contexts| == |st.contexts| + 1
    ensures r.1.Success? && kind == ACCESSOR ==> r.1.value.Pair?
  {
    var (called, died) := Perform(st.(contexts := st.contexts + [Context(j, false)]), d.attempts);
    var ret := d.ret(value);
    if died.Some? then (called, Failure(died.value))
    else if ret.Throws? then (called, Failure(Raised))
    else Accept(called.(contexts := called.contexts[|st.contexts| := Context(j, true)]), kind, j, value, ret)
  }

  /** The loop over the decorators, from the last to the first, ended by the first error. */
  function ApplyAll(st: State, kind: nat, j: nat, value: Value, ds: seq<Decorator>): (r: (State, Result<Value, Error>))
    requires Valid(st) && kind <= FIELD && (kind == ACCESSOR ==> value.Pair?)
    requires j < |st.slots| && st.slots[j].List? && (HasOwnSlots(kind) ==> 5 <= j)
    ensures Valid(r.0) && SameShape(st, r.0)
    ensures r.1.Success? && kind == ACCESSOR ==> r.1.value.Pair?
    decreases |ds|
  {
    if ds == [] then (st, Success(value))
    else
      var (after, rest) := ApplyAll(st, kind, j, value, ds[1..]);
      if rest.Failure? then (after, rest) else Apply(after, kind, j, rest.value, ds[0])
  }

  /** The slot shared by the class, by its static methods, or by its other methods. */
  function SharedSlot(e: Element): nat {
    if e.kind == CLASS then 0 else if e.isStatic then 1 else 2
  }

  /** The slot of the extra initializers of an element. */
  function SlotOf(st: State, e: Element): nat {
    if HasOwnSlots(e.kind) then |st.slots| + 1 else SharedSlot(e)
  }

  /** The array once the lists of the element are in place. */
  function Open(st: State, e: Element): (r: State)
    requires Valid(st)
    ensures Valid(r) && SlotOf(st, e) < |r.slots| && r.slots[SlotOf(st, e)].List? && r.contexts == st.contexts
  {
    if HasOwnSlots(e.kind) then st.(slots := st.slots + [List([]), List([])])
    else
      var j := SlotOf(st, e);
      if st.slots[j].Hole? then st.(slots := st.slots[j := List([])]) else st
  }

  function Decorate(st: State, e: Element): (r: (State, Result<Value, Error>))
    requires Valid(st) && ElementOk(e)
    ensures Valid(r.0)
  {
    ApplyAll(Open(st, e), e.kind, SlotOf(st, e), e.value, e.decorators)
  }

  /** The elements of a class in the order they are decorated, up to the first error. */
  ghost function DecorateAll(st: State, es: seq<Element>): (r: (State, Result<seq<Value>, Error>))
    requires Valid(st) && forall i :: 0 <= i < |es| ==> ElementOk(es[i])
    ensures Valid(r.0) && (r.1.Success? ==> |r.1.value| == |es|)
    decreases |es|
  {
    if es == [] then (st, Success([]))
    else
      var (before, values) := DecorateAll(st, es[..|es| - 1]);
      if values.Failure? then (before, values)
      else
        var (after, v) := Decorate(before, es[|es| - 1]);
        if v.Failure? then (after, Failure(v.error)) else (after, Success(values.value + [v.value]))
  }

  // ----- the loops of the source

  class Engine {
    var slots: seq<Slot>
    var contexts: seq<Context>

    function Current(): State
      reads this
    {
      State(slots, contexts)
    }

    constructor (metadata: nat)
      ensures Current() == Start(metadata) && Valid(Current())
    {
      slots, contexts := [Hole, Hole, Hole, Metadata(metadata)], [];
    }

    method CallAddInitializer(ctx: nat, fn: Option<Fn>) returns (r: Result<(), Error>)
      requires Valid(Current())
      modifies this
      ensures match AddInitializer(old(Current()), ctx, fn)
              case Success(next) => r == Success(()) && Current() == next
              case Failure(e) => r == Failure(e) && Current() == old(Current())
    {
      if ctx >= |contexts| {
        return Failure(Raised);
      }
      if contexts[ctx].done {
        return Failure(AlreadyInitialized);
      }
      if fn.None? {
        return Failure(FunctionExpected);
      }
      var j := contexts[ctx].slot;
      slots := slots[j := List(slots[j].fns + [fn.value])];
      r := Success(());
    }

    /** Runs the body of a decorator. */
    method CallDecorator(d: Decorator, value: Value) returns (r: Result<Return, Error>)
      requires Valid(Current())
      modifies this
      ensures var (after, died) := Perform(old(Current()), d.attempts);
              Current() == after &&
              r == match died case Some(e) => Failure(e) case None => Success(d.ret(value))
    {
      ghost var before := Current();
      for i := 0 to |d.attempts|
        invariant Valid(Current())
        invariant Perform(before, d.attempts) == Perform(Current(), d.attempts[i..])
      {
        var added := CallAddInitializer(d.attempts[i].ctx, d.attempts[i].fn);
        assert d.attempts[i..][1..] == d.attempts[i + 1..];
        if added.Failure? && !d.attempts[i].caught {
          return Failure(added.error);
        }
      }
      r := Success(d.ret(value));
    }

    method ApplyDecorator(kind: nat, j: nat, value: Value, d: Decorator) returns (r: Result<Value, Error>)
      requires Valid(Current()) && kind <= FIELD && (kind == ACCESSOR ==> value.Pair?)
      requires j < |slots| && slots[j].List? && (HasOwnSlots(kind) ==> 5 <= j)
      modifies this
      ensures (Current(), r) == Apply(old(Current()), kind, j, value, d)
    {
      var ctx := |contexts|;
      contexts := contexts + [Context(j, false)];
      var it :- CallDecorator(d, value);
      if it.Throws? {
        return Failure(Raised);
      }
      contexts := contexts[ctx := Context(j, true)];
      r := TakeResult(kind, j, value, it);
    }

    /** Puts the lists of the element in place. */
    method OpenLists(e: Element) returns (j: nat)
      requires Valid(Current())
      modifies this
      ensures j == SlotOf(old(Current()), e) && Current() == Open(old(Current()), e)
    {
      j := if HasOwnSlots(e.kind) then |slots| + 1 else if e.kind == CLASS then 0 else if e.isStatic then 1 else 2;
      if HasOwnSlots(e.kind) {
        slots := slots + [List([]), List([])];
      } else if slots[j].Hole? {
        slots := slots[j := List([])];
      }
    }

    method DecorateElement(e: Element) returns (r: Result<Value, Error>)
      requires Valid(Current()) && ElementOk(e)
      modifies this
      ensures (Current(), r) == Decorate(old(Current()), e)
    {
      var j := OpenLists(e);
      ghost var prepared := Current();
      hide Apply, Open;
      var value := e.value;
      var i := |e.decorators|;
      assert e.decorators[i..] == [];
      while i > 0
        invariant 0 <= i <= |e.decorators|
        invariant (Current(), Success(value)) == ApplyAll(prepared, e.kind, j, e.value, e.decorators[i..])
      {
        i := i - 1;
        assert e.decorators[i..][1..] == e.decorators[i + 1..];
        var applied := ApplyDecorator(e.kind, j, value, e.decorators[i]);
        match applied {
          case Failure(error) =>
            FirstErrorEnds(prepared, e.kind, j, e.value, e.decorators, i);
            return Failure(error);
          case Success(v) =>
            value := v;
        }
      }
      assert e.decorators[0..] == e.decorators;
      r := Success(value);
    }

    /** What is done with the value a decorator returned. */
    method TakeResult(kind: nat, j: nat, value: Value, it: Return) returns (r: Result<Value, Error>)
      requires Valid(Current()) && kind <= FIELD && (kind == ACCESSOR ==> value.Pair?) && !it.Throws?
      requires HasOwnSlots(kind) ==> 5 <= j < |slots|
      modifies this
      ensures (Current(), r) == Accept(old(Current()), kind, j, value, it)
    {
      if kind != ACCESSOR || it.ReturnsUndefined? {
        if it.ReturnsFunction? {
          if kind > 4 {
            slots := slots[j - 1 := List([it.f] + slots[j - 1].fns)];
            r := Success(value);
          } else {
            r := Success(Function(it.f));
          }
        } else if it.ReturnsUndefined? {
          r := Success(value);
        } else {
          r := Failure(FunctionExpected);
        }
      } else if !it.ReturnsObject? {
        r := Failure(ObjectExpected);
      } else {
        var getter, setter := value.getter, value.setter;
        if it.getter.NotCallable? {
          return Failure(FunctionExpected);
        } else if it.getter.Callable? {
          getter := it.getter.f;
        }
        if it.setter.NotCallable? {
          return Failure(FunctionExpected);
        } else if it.setter.Callable? {
          setter := it.setter.f;
        }
        if it.init.NotCallable? {
          return Failure(FunctionExpected);
        } else if it.init.Callable? {
          slots := slots[j - 1 := List([it.init.f] + slots[j - 1].fns)];
        }
        r := Success(Pair(getter, setter));
      }
    }

    /** Runs the list in slot `flags / 2`: with an odd flag each function is just called,
        with an even one the value is passed through them. */
    method RunInitializers<V>(flags: nat, value: V, call: (Fn, V) -> V) returns (r: V, calls: seq<Fn>)
      requires Valid(Current())
      ensures calls == InitializersAt(Current(), flags / 2)
      ensures r == if flags % 2 == 1 then value else FoldLeft(calls, value, call)
    {
      var fns := if flags / 2 < |slots| && slots[flags / 2].List? then slots[flags / 2].fns else [];
      r, calls := value, [];
      for i := 0 to |fns|
        invariant calls == fns[..i]
        invariant r == if flags % 2 == 1 then value else FoldLeft(fns[..i], value, call)
      {
        if flags % 2 == 0 {
          assert fns[..i + 1][..i] == fns[..i];
          r := call(fns[i], r);
        }
        calls := calls + [fns[i]];
      }
      assert fns[..|fns|] == fns;
    }
  }

  function InitializersAt(st: State, slot: nat): seq<Fn> {
    if slot < |st.slots| && st.slots[slot].List? then st.slots[slot].fns else []
  }

  function FoldLeft<V>(fns: seq<Fn>, value: V, call: (Fn, V) -> V): V {
    if fns == [] then value else call(fns[|fns| - 1], FoldLeft(fns[..|fns| - 1], value, call))
  }

  lemma {:induction false} FirstErrorEnds(st: State, kind: nat, j: nat, value: Value, ds: seq<Decorator>, i: nat)
    requires Valid(st) && kind <= FIELD && (kind == ACCESSOR ==> value.Pair?) && i <= |ds|
    requires j < |st.slots| && st.slots[j].List? && (HasOwnSlots(kind) ==> 5 <= j)
    requires ApplyAll(st, kind, j, value, ds[i..]).1.Failure?
    ensures ApplyAll(st, kind, j, value, ds) == ApplyAll(st, kind, j, value, ds[i..])
    decreases i
  {
    if i == 0 {
      assert ds[0..] == ds;
    } else {
      assert ds[1..][i - 1..] == ds[i..];
      FirstErrorEnds(st, kind, j, value, ds[1..], i - 1);
    }
  }
}
