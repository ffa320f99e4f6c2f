/** What any sequence of decorated elements leaves in the array, and the values it yields. */
module DecoratorRuns {
  import opened Wrappers
  import opened Decorators

  // ----- what a list of decorators means, without the array

  /** The value after a decorator returned `ret` for it. */
  function Replaced(kind: nat, value: Value, ret: Return): Value
    requires kind == ACCESSOR ==> value.Pair?
  {
    match ret
    case ReturnsFunction(f) => if kind < ACCESSOR then Function(f) else value
    case ReturnsObject(getter, setter, _) =>
      if kind != ACCESSOR then value
      else Pair(if getter.Callable? then getter.f else value.getter, if setter.Callable? then setter.f else value.setter)
    case _ => value
  }

  /** The composition of the decorators, the last one innermost. */
  function Composed(kind: nat, ds: seq<Decorator>, value: Value): (v: Value)
    requires kind == ACCESSOR ==> value.Pair?
    ensures kind == ACCESSOR ==> v.Pair?
    decreases |ds|
  {
    if ds == [] then value
    else
      var inner := Composed(kind, ds[1..], value);
      Replaced(kind, inner, ds[0].ret(inner))
  }

  /** The initializer in what a decorator of a field or accessor returned. */
  function Init(kind: nat, ret: Return): seq<Fn> {
    match ret
    case ReturnsFunction(f) => if kind == FIELD then [f] else []
    case ReturnsObject(_, _, Callable(f)) => if kind == ACCESSOR then [f] else []
    case _ => []
  }

  /** The initializers returned, in source order. */
  function Inits(kind: nat, ds: seq<Decorator>, value: Value): seq<Fn>
    requires kind == ACCESSOR ==> value.Pair?
    decreases |ds|
  {
    if ds == [] then []
    else Init(kind, ds[0].ret(Composed(kind, ds[1..], value))) + Inits(kind, ds[1..], value)
  }

  /** The functions a decorator registers through its own context, number `own`. */
  function OwnAdded(attempts: seq<Attempt>, own: nat): seq<Fn> {
    if attempts == [] then []
    else (if attempts[0].ctx == own && attempts[0].fn.Some? then [attempts[0].fn.value] else []) + OwnAdded(attempts[1..], own)
  }

  /** The functions all the decorators register, in the order they are called, when `base`
      contexts existed before. */
  function Extras(ds: seq<Decorator>, base: nat): seq<Fn>
    decreases |ds|
  {
    if ds == [] then [] else Extras(ds[1..], base) + OwnAdded(ds[0].attempts, base + |ds| - 1)
  }

  // ----- one decorator

  /** `after` is `st` with `added` appended to the list in slot `j`. */
  ghost predicate Appended(st: State, after: State, j: nat, added: seq<Fn>)
    requires j < |st.slots| && st.slots[j].List?
  {
    && after.contexts == st.contexts
    && after.slots == st.slots[j := List(st.slots[j].fns + added)]
  }

  /** How many attempts a decorator makes while only its own context, number `own`, is open: up
      to the first one that fails and is not caught. */
  function Attempted(attempts: seq<Attempt>, own: nat): (n: nat)
    ensures n <= |attempts|
  {
    if attempts == [] then 0
    else
      var fails := attempts[0].ctx != own || attempts[0].fn.None?;
      if fails && !attempts[0].caught then 0 else 1 + Attempted(attempts[1..], own)
  }

  /** Why an attempt fails while only context `own` of `n` is open. */
  function AttemptError(a: Attempt, own: nat, n: nat): Error {
    if a.ctx >= n then Raised else if a.ctx != own then AlreadyInitialized else FunctionExpected
  }

  /** While only context `own` is not done, a decorator can register functions there alone,
      whether it dies of an uncaught error or not. */
  lemma {:induction false} PerformAppends(st: State, attempts: seq<Attempt>, own: nat)
    requires Valid(st) && own < |st.contexts|
    requires forall c :: 0 <= c < |st.contexts| ==> (st.contexts[c].done <==> c != own)
    ensures var (after, died) := Perform(st, attempts);
            && Appended(st, after, st.contexts[own].slot, OwnAdded(attempts[..Attempted(attempts, own)], own))
            && (died.None? <==> Attempted(attempts, own) == |attempts|)
            && (died.Some? ==> died.value == AttemptError(attempts[Attempted(attempts, own)], own, |st.contexts|))
    decreases |attempts|
  {
    hide SameShape;
    var j, n := st.contexts[own].slot, Attempted(attempts, own);
    if n == 0 {
      assert attempts[..0] == [];
      assert st.slots[j].fns + [] == st.slots[j].fns;
    } else {
      assert attempts[..n][0] == attempts[0] && attempts[..n][1..] == attempts[1..][..n - 1];
      match AddInitializer(st, attempts[0].ctx, attempts[0].fn)
      case Failure(_) =>
        PerformAppends(st, attempts[1..], own);
        assert OwnAdded(attempts[..n], own) == OwnAdded(attempts[1..][..n - 1], own);
      case Success(next) =>
        PerformAppends(next, attempts[1..], own);
        var added := OwnAdded(attempts[1..][..n - 1], own);
        assert st.slots[j].fns + [attempts[0].fn.value] + added == st.slots[j].fns + ([attempts[0].fn.value] + added);
    }
  }

  /** The lists of the element with slot `j` are there. */
  ghost predicate Prepared(st: State, kind: nat, j: nat) {
    && Valid(st) && AllDone(st) && kind <= FIELD
    && j < |st.slots| && st.slots[j].List? && (HasOwnSlots(kind) ==> 5 <= j && st.slots[j - 1].List?)
  }

  /** From `st` to `after`, `count` decorators have run: their initializers stand before, and
      what they registered after, what the lists of the element held. No other slot changed. */
  ghost predicate Effect(st: State, after: State, kind: nat, j: nat, count: nat, inits: seq<Fn>, extras: seq<Fn>) {
    && Prepared(st, kind, j) && Prepared(after, kind, j)
    && |after.contexts| == |st.contexts| + count && |after.slots| == |st.slots|
    && after.slots[j].fns == st.slots[j].fns + extras
    && (HasOwnSlots(kind) ==> after.slots[j - 1].fns == inits + st.slots[j - 1].fns)
    && forall i :: 0 <= i < |st.slots| && i != j && (HasOwnSlots(kind) ==> i != j - 1) ==> after.slots[i] == st.slots[i]
  }

  lemma {:induction false} NoEffect(st: State, kind: nat, j: nat)
    requires Prepared(st, kind, j)
    ensures Effect(st, st, kind, j, 0, [], [])
  {
    assert st.slots[j].fns + [] == st.slots[j].fns;
    if HasOwnSlots(kind) {
      assert [] + st.slots[j - 1].fns == st.slots[j - 1].fns;
    }
  }

  lemma {:induction false} EffectThen(st: State, mid: State, after: State, kind: nat, j: nat,
                   count: nat, inits: seq<Fn>, extras: seq<Fn>, init: seq<Fn>, extra: seq<Fn>)
    requires Effect(st, mid, kind, j, count, inits, extras) && Effect(mid, after, kind, j, 1, init, extra)
    ensures Effect(st, after, kind, j, count + 1, init + inits, extras + extra)
  {
    assert st.slots[j].fns + extras + extra == st.slots[j].fns + (extras + extra);
    if HasOwnSlots(kind) {
      assert init + (inits + st.slots[j - 1].fns) == init + inits + st.slots[j - 1].fns;
    }
  }

  /** The effect of one decorator that succeeds. */
  lemma {:induction false} ApplyEffect(st: State, kind: nat, j: nat, value: Value, d: Decorator)
    requires Prepared(st, kind, j) && (kind == ACCESSOR ==> value.Pair?)
    ensures var (after, r) := Apply(st, kind, j, value, d);
            r.Success? ==>
              && r.value == Replaced(kind, value, d.ret(value))
              && Effect(st, after, kind, j, 1, Init(kind, d.ret(value)), OwnAdded(d.attempts, |st.contexts|))
  {
    hide Perform, OwnAdded, Attempted;
    var entered := st.(contexts := st.contexts + [Context(j, false)]);
    PerformAppends(entered, d.attempts, |st.contexts|);
    assert d.attempts[..|d.attempts|] == d.attempts;
    var (called, died) := Perform(entered, d.attempts);
    if died.None? && HasOwnSlots(kind) {
      assert called.slots[j - 1] == st.slots[j - 1];
      assert [] + st.slots[j - 1].fns == st.slots[j - 1].fns;
    }
  }

  // ----- one element

  /** What the loop over the decorators leaves behind when it ends without an error. */
  lemma {:induction false} ApplyAllEffect(st: State, kind: nat, j: nat, value: Value, ds: seq<Decorator>)
    requires Prepared(st, kind, j) && (kind == ACCESSOR ==> value.Pair?)
    ensures var (after, r) := ApplyAll(st, kind, j, value, ds);
            r.Success? ==>
              && r.value == Composed(kind, ds, value)
              && Effect(st, after, kind, j, |ds|, Inits(kind, ds, value), Extras(ds, |st.contexts|))
    decreases |ds|
  {
    hide Apply, Replaced, Init, OwnAdded, Effect;
    if ds == [] {
      NoEffect(st, kind, j);
    } else {
      ApplyAllEffect(st, kind, j, value, ds[1..]);
      var (mid, r) := ApplyAll(st, kind, j, value, ds[1..]);
      if r.Success? {
        assert Prepared(mid, kind, j) && |mid.contexts| == |st.contexts| + |ds| - 1 by {
          EffectMeans(st, mid, kind, j, |ds| - 1, Inits(kind, ds[1..], value), Extras(ds[1..], |st.contexts|));
        }
        ApplyEffect(mid, kind, j, r.value, ds[0]);
        var (after, last) := Apply(mid, kind, j, r.value, ds[0]);
        if last.Success? {
          EffectThen(st, mid, after, kind, j, |ds| - 1, Inits(kind, ds[1..], value), Extras(ds[1..], |st.contexts|),
                     Init(kind, ds[0].ret(r.value)), OwnAdded(ds[0].attempts, |mid.contexts|));
        }
      }
    }
  }

  lemma {:induction false} EffectMeans(st: State, after: State, kind: nat, j: nat, count: nat, inits: seq<Fn>, extras: seq<Fn>)
    requires Effect(st, after, kind, j, count, inits, extras)
    ensures Prepared(after, kind, j) && |after.contexts| == |st.contexts| + count
  {
  }

  /** A decorated element: its value is the composition of its decorators; the lists of a
      field or accessor are the next two slots; a shared list is only appended to; nothing
      else changes. */
  lemma {:induction false} DecorateEffect(st: State, e: Element)
    requires Valid(st) && AllDone(st) && ElementOk(e)
    ensures var (after, r) := Decorate(st, e);
            r.Success? ==>
              && Valid(after) && AllDone(after) && |after.contexts| == |st.contexts| + |e.decorators|
              && r.value == Composed(e.kind, e.decorators, e.value)
              && (if HasOwnSlots(e.kind) then
                    after.slots == st.slots + [List(Inits(e.kind, e.decorators, e.value)), List(Extras(e.decorators, |st.contexts|))]
                  else
                    after.slots == st.slots[SlotOf(st, e) :=
                      List(InitializersAt(st, SlotOf(st, e)) + Extras(e.decorators, |st.contexts|))])
  {
    hide ApplyAll, Inits, Extras, Composed;
    var j, prepared := SlotOf(st, e), Open(st, e);
    ApplyAllEffect(prepared, e.kind, j, e.value, e.decorators);
    var (after, r) := ApplyAll(prepared, e.kind, j, e.value, e.decorators);
    if r.Success? {
      var inits, extras := Inits(e.kind, e.decorators, e.value), Extras(e.decorators, |st.contexts|);
      assert inits + [] == inits && [] + extras == extras;
    }
  }

  // ----- what happens however a decorator ends

  /** `after` is `st` but for the list in slot `j`, which may have grown, and for an element
      with slots of its own the list before it. */
  ghost predicate OthersKept(st: State, after: State, own: bool, j: nat) {
    && |after.slots| == |st.slots| && j < |st.slots| && st.slots[j].List? && after.slots[j].List?
    && st.slots[j].fns <= after.slots[j].fns
    && forall i :: 0 <= i < |st.slots| && i != j && (own ==> i != j - 1) ==> after.slots[i] == st.slots[i]
  }

  /** The decorator throws, or dies of an error of `addInitializer` that it does not catch. */
  predicate Dies(st: State, j: nat, value: Value, d: Decorator)
    requires Valid(st) && j < |st.slots| && st.slots[j].List?
  {
    Perform(st.(contexts := st.contexts + [Context(j, false)]), d.attempts).1.Some? || d.ret(value).Throws?
  }

  /** All contexts but the last are done, and the last one is unless its decorator died. */
  ghost predicate DoneUnless(st: State, died: bool) {
    && (forall c :: 0 <= c < |st.contexts| - 1 ==> st.contexts[c].done)
    && (died ==> st.contexts != [])
    && (st.contexts != [] ==> (st.contexts[|st.contexts| - 1].done <==> !died))
  }

  lemma {:induction false} ApplyKeeps(st: State, kind: nat, j: nat, value: Value, d: Decorator)
    requires Prepared(st, kind, j) && (kind == ACCESSOR ==> value.Pair?)
    ensures var (after, r) := Apply(st, kind, j, value, d);
            && OthersKept(st, after, HasOwnSlots(kind), j)
            && DoneUnless(after, Dies(st, j, value, d))
            && (r.Success? ==> !Dies(st, j, value, d))
  {
    hide Perform, OwnAdded, Attempted;
    var entered := st.(contexts := st.contexts + [Context(j, false)]);
    PerformAppends(entered, d.attempts, |st.contexts|);
  }

  /** The decorator that ended the loop died, rather than return something unfit. */
  predicate LoopDies(st: State, kind: nat, j: nat, value: Value, ds: seq<Decorator>)
    requires Valid(st) && kind <= FIELD && (kind == ACCESSOR ==> value.Pair?)
    requires j < |st.slots| && st.slots[j].List? && (HasOwnSlots(kind) ==> 5 <= j)
    decreases |ds|
  {
    ds != [] &&
    var (mid, rest) := ApplyAll(st, kind, j, value, ds[1..]);
    if rest.Failure? then LoopDies(st, kind, j, value, ds[1..]) else Dies(mid, j, rest.value, ds[0])
  }

  lemma {:induction false} DoneMeans(st: State)
    ensures AllDone(st) <==> DoneUnless(st, false)
  {
  }

  lemma {:induction false} ApplyAllKeeps(st: State, kind: nat, j: nat, value: Value, ds: seq<Decorator>)
    requires Prepared(st, kind, j) && (kind == ACCESSOR ==> value.Pair?)
    ensures var (after, r) := ApplyAll(st, kind, j, value, ds);
            && OthersKept(st, after, HasOwnSlots(kind), j)
            && DoneUnless(after, LoopDies(st, kind, j, value, ds))
            && (r.Success? ==> !LoopDies(st, kind, j, value, ds))
    decreases |ds|
  {
    hide Apply, Dies, DoneUnless;
    if ds == [] {
      DoneMeans(st);
    } else {
      ApplyAllKeeps(st, kind, j, value, ds[1..]);
      var (mid, rest) := ApplyAll(st, kind, j, value, ds[1..]);
      if rest.Success? {
        ApplyAllEffect(st, kind, j, value, ds[1..]);
        EffectMeans(st, mid, kind, j, |ds| - 1, Inits(kind, ds[1..], value), Extras(ds[1..], |st.contexts|));
        ApplyKeeps(mid, kind, j, rest.value, ds[0]);
      }
    }
  }

  // ----- all the elements of a class

  /** How many of the elements are fields or accessors. */
  function CountOwn(es: seq<Element>): nat {
    if es == [] then 0 else CountOwn(es[..|es| - 1]) + if HasOwnSlots(es[|es| - 1].kind) then 1 else 0
  }

  function CountDecorators(es: seq<Element>): nat {
    if es == [] then 0 else CountDecorators(es[..|es| - 1]) + |es[|es| - 1].decorators|
  }

  ghost predicate AllOk(es: seq<Element>) {
    forall i :: 0 <= i < |es| ==> ElementOk(es[i])
  }

  /** How many elements are decorated before one fails. */
  ghost function Completed(metadata: nat, es: seq<Element>): (m: nat)
    requires AllOk(es)
    ensures m <= |es|
    decreases |es|
  {
    if es == [] then 0
    else if DecorateAll(Start(metadata), es).1.Success? then |es|
    else if DecorateAll(Start(metadata), es[..|es| - 1]).1.Success? then |es| - 1
    else Completed(metadata, es[..|es| - 1])
  }

  /** The decorator that ended the decoration of the class died. */
  ghost predicate ClassDies(metadata: nat, es: seq<Element>)
    requires AllOk(es)
    decreases |es|
  {
    es != [] &&
    var front, e := es[..|es| - 1], es[|es| - 1];
    var (before, values) := DecorateAll(Start(metadata), front);
    if values.Failure? then ClassDies(metadata, front)
    else LoopDies(Open(before, e), e.kind, SlotOf(before, e), e.value, e.decorators)
  }

  /** However the decoration of one element ends: the shared lists are kept, but for its own,
      which may have grown. */
  ghost predicate SharedKept(st: State, after: State, e: Element) {
    && 3 <= |st.slots| <= |after.slots|
    && (forall i :: 0 <= i < 3 && i != SlotOf(st, e) ==> after.slots[i] == st.slots[i])
    && forall j :: 0 <= j < 3 ==> InitializersAt(st, j) <= InitializersAt(after, j)
  }

  /** The metadata and the lists that fields and accessors own are there unchanged. */
  ghost predicate RestKept(st: State, after: State) {
    |st.slots| <= |after.slots| && forall i :: 3 <= i < |st.slots| ==> after.slots[i] == st.slots[i]
  }

  lemma {:induction false} DecorateKeeps(st: State, e: Element)
    requires Valid(st) && AllDone(st) && ElementOk(e)
    ensures var (after, r), died := Decorate(st, e), LoopDies(Open(st, e), e.kind, SlotOf(st, e), e.value, e.decorators);
            && SharedKept(st, after, e)
            && |after.slots| == |st.slots| + (if HasOwnSlots(e.kind) then 2 else 0) && RestKept(st, after)
            && DoneUnless(after, died) && (r.Success? ==> !died)
  {
    hide ApplyAll, LoopDies, DoneUnless;
    ApplyAllKeeps(Open(st, e), e.kind, SlotOf(st, e), e.value, e.decorators);
  }

  /** Where element `i` of a class ends up: the n-th field or accessor owns slots 4+2n and
      5+2n, which hold its initializers in source order and what its decorators registered. */
  ghost predicate Placed(es: seq<Element>, i: nat, st: State)
    requires i < |es| && AllOk(es)
  {
    HasOwnSlots(es[i].kind) ==>
      var own := 4 + 2 * CountOwn(es[..i]);
      && own + 1 < |st.slots|
      && st.slots[own] == List(Inits(es[i].kind, es[i].decorators, es[i].value))
      && st.slots[own + 1] == List(Extras(es[i].decorators, CountDecorators(es[..i])))
  }

  /** What is known of the array and the contexts after any class: of the `m` elements that were
      decorated, and of the one that failed if any, whose decorator may have died. */
  ghost predicate LaidOut(metadata: nat, es: seq<Element>, st: State, values: Option<seq<Value>>, m: nat, died: bool)
    requires AllOk(es) && m <= |es|
  {
    && Valid(st) && st.slots[3] == Metadata(metadata)
    && (values.Some? <==> m == |es|)
    && |st.slots| == 4 + 2 * CountOwn(if m == |es| then es else es[..m + 1])
    && (forall i :: 0 <= i < m ==> Placed(es, i, st))
    && DoneUnless(st, died) && (values.Some? ==> !died)
    && (values.Some? ==>
          && |values.value| == |es| && |st.contexts| == CountDecorators(es)
          && forall i :: 0 <= i < |es| ==> values.value[i] == Composed(es[i].kind, es[i].decorators, es[i].value))
  }

  function ToOption(r: Result<seq<Value>, Error>): Option<seq<Value>> {
    if r.Success? then Some(r.value) else None
  }

  lemma {:induction false} PlacedStays(es: seq<Element>, i: nat, st: State, after: State, e: Element)
    requires i < |es| && AllOk(es) && Placed(es, i, st) && RestKept(st, after)
    ensures AllOk(es + [e]) ==> Placed(es + [e], i, after)
  {
    hide Inits, Extras;
    assert (es + [e])[..i] == es[..i];
  }

  /** The last element, if its decoration succeeds. */
  lemma {:induction false} LastPlaced(es: seq<Element>, e: Element, st: State)
    requires AllOk(es + [e]) && Valid(st) && AllDone(st) && ElementOk(e)
    requires |st.slots| == 4 + 2 * CountOwn(es) && |st.contexts| == CountDecorators(es)
    ensures var (after, r) := Decorate(st, e);
            r.Success? ==>
              && Placed(es + [e], |es|, after) && |after.contexts| == CountDecorators(es + [e])
              && r.value == Composed(e.kind, e.decorators, e.value)
  {
    hide Decorate, Composed, Inits, Extras;
    DecorateEffect(st, e);
    assert (es + [e])[..|es|] == es && (es + [e])[|es|] == e;
  }

  lemma {:induction false} FrontOf(es: seq<Element>, e: Element)
    ensures (es + [e])[..|es|] == es && (es + [e])[|es|] == e && |es + [e]| - 1 == |es|
    ensures AllOk(es + [e]) <==> AllOk(es) && ElementOk(e)
    ensures CountOwn(es + [e]) == CountOwn(es) + if HasOwnSlots(e.kind) then 1 else 0
  {
    if AllOk(es + [e]) {
      forall i | 0 <= i < |es| ensures ElementOk(es[i]) {
        assert (es + [e])[i] == es[i];
      }
      assert (es + [e])[|es|] == e;
    }
  }

  /** Decorating one more element, unless one before has failed. */
  lemma {:induction false} DecorateOneMore(metadata: nat, es: seq<Element>, e: Element)
    requires AllOk(es) && AllOk(es + [e])
    ensures var (before, values), (after, r) := DecorateAll(Start(metadata), es), DecorateAll(Start(metadata), es + [e]);
            && (values.Failure? ==>
                  && after == before && r == values
                  && Completed(metadata, es + [e]) == Completed(metadata, es) && ClassDies(metadata, es + [e]) == ClassDies(metadata, es))
            && (values.Success? ==>
                  && ElementOk(e)
                  && var (st, v) := Decorate(before, e);
                     && after == st && (r.Success? <==> v.Success?)
                     && (if r.Success? then r.value == values.value + [v.value] else r.error == v.error)
                     && Completed(metadata, es + [e]) == (if v.Success? then |es| + 1 else |es|)
                     && ClassDies(metadata, es + [e]) == LoopDies(Open(before, e), e.kind, SlotOf(before, e), e.value, e.decorators))
  {
    hide Decorate, LoopDies, AllOk;
    FrontOf(es, e);
  }

  lemma {:induction false} FailureStays(metadata: nat, es: seq<Element>, e: Element, st: State, m: nat, died: bool)
    requires AllOk(es) && AllOk(es + [e]) && m < |es|
    requires LaidOut(metadata, es, st, None, m, died)
    ensures LaidOut(metadata, es + [e], st, None, m, died)
  {
    hide Composed, Placed, DoneUnless, CountOwn, CountDecorators, ElementOk;
    assert (es + [e])[..m + 1] == es[..m + 1];
    forall i | 0 <= i < m ensures Placed(es + [e], i, st) {
      PlacedStays(es, i, st, st, e);
    }
  }

  lemma {:induction false} ElementAdded(metadata: nat, es: seq<Element>, e: Element, before: State, values: seq<Value>)
    requires AllOk(es) && AllOk(es + [e]) && ElementOk(e)
    requires LaidOut(metadata, es, before, Some(values), |es|, false)
    ensures var (after, v) := Decorate(before, e);
            LaidOut(metadata, es + [e], after, if v.Success? then Some(values + [v.value]) else None,
                    if v.Success? then |es| + 1 else |es|,
                    LoopDies(Open(before, e), e.kind, SlotOf(before, e), e.value, e.decorators))
  {
    hide Decorate, Composed, Placed, SharedKept, DoneUnless, LoopDies, CountOwn, CountDecorators, ElementOk;
    DoneMeans(before);
    DecorateKeeps(before, e);
    LastPlaced(es, e, before);
    FrontOf(es, e);
    assert (es + [e])[..|es| + 1] == es + [e];
    var (after, v) := Decorate(before, e);
    forall i | 0 <= i < |es| ensures Placed(es + [e], i, after) {
      PlacedStays(es, i, before, after, e);
    }
  }

  lemma {:induction false} StartLaidOut(metadata: nat)
    ensures DecorateAll(Start(metadata), []) == (Start(metadata), Success([])) && Completed(metadata, []) == 0
    ensures LaidOut(metadata, [], Start(metadata), Some([]), 0, false) && !ClassDies(metadata, [])
    ensures forall j: nat :: j < 3 ==> InitializersAt(Start(metadata), j) == [] == SharedExtras([], j)
  {
  }

  /** The array after any class, decorated without an error or up to one. */
  lemma {:induction false} RunLayout(metadata: nat, es: seq<Element>)
    requires AllOk(es)
    ensures var (st, r) := DecorateAll(Start(metadata), es);
            LaidOut(metadata, es, st, ToOption(r), Completed(metadata, es), ClassDies(metadata, es))
    decreases |es|
  {
    hide Decorate, LoopDies, DecorateAll, Completed, ClassDies;
    if es == [] {
      StartLaidOut(metadata);
    } else {
      var front, e := es[..|es| - 1], es[|es| - 1];
      assert es == front + [e];
      RunLayout(metadata, front);
      DecorateOneMore(metadata, front, e);
      var (before, values) := DecorateAll(Start(metadata), front);
      if values.Failure? {
        FailureStays(metadata, front, e, before, Completed(metadata, front), ClassDies(metadata, front));
      } else {
        ElementAdded(metadata, front, e, before, values.value);
      }
    }
  }

  /** The elements that share slot 0, 1 or 2: classes; static methods, getters and setters; other
      methods, getters and setters. */
  predicate Shares(e: Element, j: nat) {
    match j
    case 0 => e.kind == 0
    case 1 => 1 <= e.kind <= 3 && e.isStatic
    case 2 => 1 <= e.kind <= 3 && !e.isStatic
    case _ => false
  }

  /** What the decorators of the elements that share slot `j` register. */
  function SharedExtras(es: seq<Element>, j: nat): seq<Fn> {
    if es == [] then []
    else
      var front, e := es[..|es| - 1], es[|es| - 1];
      SharedExtras(front, j) + if Shares(e, j) then Extras(e.decorators, CountDecorators(front)) else []
  }

  /** The shared lists of slots 0, 1 and 2 hold what the decorators of the class, of its
      static methods and of its other methods registered, element by element; fields and
      accessors add nothing there. After an error, the element that failed may have added to
      the end of its own list only. */
  lemma {:induction false} SharedLists(metadata: nat, es: seq<Element>, j: nat)
    requires AllOk(es) && j < 3
    ensures var (st, r), m := DecorateAll(Start(metadata), es), Completed(metadata, es);
            && SharedExtras(es[..m], j) <= InitializersAt(st, j)
            && (m == |es| || !Shares(es[m], j) ==> InitializersAt(st, j) == SharedExtras(es[..m], j))
    decreases |es|
  {
    hide DecorateAll, Completed, ClassDies, Decorate, LoopDies, LaidOut, SharedExtras, InitializersAt, ElementOk, AllDone;
    if es == [] {
      StartLaidOut(metadata);
    } else {
      var front, e := es[..|es| - 1], es[|es| - 1];
      assert es == front + [e];
      FrontOf(front, e);
      SharedLists(metadata, front, j);
      RunLayout(metadata, front);
      DecorateOneMore(metadata, front, e);
      var (before, values) := DecorateAll(Start(metadata), front);
      var m := Completed(metadata, front);
      LaidOutMeans(metadata, front, before, ToOption(values), m, ClassDies(metadata, front));
      if values.Failure? {
        assert es[..m] == front[..m];
      } else {
        assert front[..|front|] == front && es[..|front|] == front && es[..|es|] == es;
        SharedListAfter(front, e, before, j);
      }
    }
  }

  lemma {:induction false} LaidOutMeans(metadata: nat, es: seq<Element>, st: State, values: Option<seq<Value>>, m: nat, died: bool)
    requires AllOk(es) && m <= |es| && LaidOut(metadata, es, st, values, m, died)
    ensures values.None? ==> m < |es|
    ensures values.Some? ==> m == |es| && Valid(st) && AllDone(st) && |st.contexts| == CountDecorators(es)
  {
    hide Composed, Placed, CountOwn, CountDecorators;
  }

  /** What one more element does to a shared list. */
  lemma {:induction false} SharedListAfter(es: seq<Element>, e: Element, st: State, j: nat)
    requires Valid(st) && AllDone(st) && ElementOk(e) && j < 3 && |st.contexts| == CountDecorators(es)
    requires InitializersAt(st, j) == SharedExtras(es, j)
    ensures var (after, r) := Decorate(st, e);
            && SharedExtras(es, j) <= InitializersAt(after, j)
            && (!Shares(e, j) ==> InitializersAt(after, j) == SharedExtras(es, j))
            && (r.Success? ==> InitializersAt(after, j) == SharedExtras(es + [e], j))
  {
    hide Decorate, Composed, Inits, Extras, DoneUnless, LoopDies;
    FrontOf(es, e);
    DecorateKeeps(st, e);
    DecorateEffect(st, e);
    assert SharedExtras(es, j) + [] == SharedExtras(es, j);
  }

  /** After any class, decorated without an error or up to one, every `addInitializer` ever
      handed out fails and leaves the array alone, but for one: that of a decorator that
      itself threw or died of an uncaught error, which alone goes on accepting functions. */
  lemma {:induction false} LateInitializersFail(metadata: nat, es: seq<Element>, ctx: nat, fn: Option<Fn>)
    requires AllOk(es) && ctx < |DecorateAll(Start(metadata), es).0.contexts|
    ensures var st := DecorateAll(Start(metadata), es).0;
            if ctx == |st.contexts| - 1 && ClassDies(metadata, es)
            then AddInitializer(st, ctx, fn).Success? <==> fn.Some?
            else AddInitializer(st, ctx, fn) == Failure(AlreadyInitialized)
  {
    hide DecorateAll, Completed, ClassDies, Placed, Composed, CountOwn, CountDecorators;
    RunLayout(metadata, es);
  }

  /** What `__runInitializers` runs for the n-th field or accessor: with flags 2(4+2n) the
      initializers its decorators returned, in source order, and with flags 2(5+2n) + 1 what
      they registered; also if a later element failed. */
  lemma {:induction false} FieldInitialization(metadata: nat, es: seq<Element>, i: nat)
    requires AllOk(es) && i < |es| && HasOwnSlots(es[i].kind)
    ensures var st, n := DecorateAll(Start(metadata), es).0, CountOwn(es[..i]);
            i < Completed(metadata, es) ==>
            && InitializersAt(st, 2 * (4 + 2 * n) / 2) == Inits(es[i].kind, es[i].decorators, es[i].value)
            && InitializersAt(st, (2 * (5 + 2 * n) + 1) / 2) == Extras(es[i].decorators, CountDecorators(es[..i]))
  {
    hide DecorateAll, Inits, Extras, Completed, ClassDies;
    RunLayout(metadata, es);
    assert i < Completed(metadata, es) ==> Placed(es, i, DecorateAll(Start(metadata), es).0);
  }
}
