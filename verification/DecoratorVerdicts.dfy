/** When the decoration of an element or of a class succeeds, and which error ends it. */
module DecoratorVerdicts {
  import opened Wrappers
  import opened Decorators
  import opened DecoratorRuns

  /** What a decorator may return: nothing, or a function, or for an accessor an object whose
      `get`, `set` and `init` are each missing or a function. */
  predicate Fits(kind: nat, ret: Return) {
    match ret
    case ReturnsUndefined => true
    case ReturnsFunction(_) => kind != 4
    case ReturnsObject(getter, setter, init) => kind == 4 && !getter.NotCallable? && !setter.NotCallable? && !init.NotCallable?
    case _ => false
  }

  /** The error for anything else. */
  function ReturnError(kind: nat, ret: Return): Error {
    if ret.Throws? then Raised else if kind == 4 && !ret.ReturnsObject? then ObjectExpected else FunctionExpected
  }

  /** The decorator makes all its attempts, and returns what fits. */
  predicate Passes(kind: nat, d: Decorator, own: nat, value: Value) {
    Attempted(d.attempts, own) == |d.attempts| && Fits(kind, d.ret(value))
  }

  function Refusal(kind: nat, d: Decorator, own: nat, value: Value): Error {
    var n := Attempted(d.attempts, own);
    if n < |d.attempts| then AttemptError(d.attempts[n], own, own + 1) else ReturnError(kind, d.ret(value))
  }

  lemma {:induction false} ApplyVerdict(st: State, kind: nat, j: nat, value: Value, d: Decorator)
    requires Prepared(st, kind, j) && (kind == ACCESSOR ==> value.Pair?)
    ensures var r := Apply(st, kind, j, value, d).1;
            if Passes(kind, d, |st.contexts|, value) then r.Success? else r == Failure(Refusal(kind, d, |st.contexts|, value))
  {
    hide Perform, OwnAdded, Attempted;
    PerformAppends(st.(contexts := st.contexts + [Context(j, false)]), d.attempts, |st.contexts|);
  }

  /** Decorator `i` of an element with `base` contexts before it: those after it have been
      called already, and it is given what they have made of the value. */
  predicate PassesAt(kind: nat, ds: seq<Decorator>, i: nat, base: nat, value: Value)
    requires i < |ds| && (kind == ACCESSOR ==> value.Pair?)
  {
    Passes(kind, ds[i], base + |ds| - 1 - i, Composed(kind, ds[i + 1..], value))
  }

  function RefusalAt(kind: nat, ds: seq<Decorator>, i: nat, base: nat, value: Value): Error
    requires i < |ds| && (kind == ACCESSOR ==> value.Pair?)
  {
    Refusal(kind, ds[i], base + |ds| - 1 - i, Composed(kind, ds[i + 1..], value))
  }

  /** The outcome for an element: success if all its decorators pass, else the error of the
      last one, in source order, that does not. */
  ghost predicate Ruled(kind: nat, ds: seq<Decorator>, base: nat, value: Value, error: Option<Error>)
    requires kind == ACCESSOR ==> value.Pair?
  {
    match error
    case None => forall i :: 0 <= i < |ds| ==> PassesAt(kind, ds, i, base, value)
    case Some(e) =>
      exists i :: 0 <= i < |ds| && !PassesAt(kind, ds, i, base, value) && e == RefusalAt(kind, ds, i, base, value)
                  && forall k :: i < k < |ds| ==> PassesAt(kind, ds, k, base, value)
  }

  function ErrorOf<V>(r: Result<V, Error>): Option<Error> {
    if r.Failure? then Some(r.error) else None
  }

  lemma {:induction false} ApplyAllVerdict(st: State, kind: nat, j: nat, value: Value, ds: seq<Decorator>)
    requires Prepared(st, kind, j) && (kind == ACCESSOR ==> value.Pair?)
    ensures Ruled(kind, ds, |st.contexts|, value, ErrorOf(ApplyAll(st, kind, j, value, ds).1))
    decreases |ds|
  {
    hide Apply, Passes, Refusal, Effect, Inits, Extras;
    if ds != [] {
      var base := |st.contexts|;
      ApplyAllVerdict(st, kind, j, value, ds[1..]);
      forall i | 1 <= i < |ds|
        ensures PassesAt(kind, ds, i, base, value) == PassesAt(kind, ds[1..], i - 1, base, value)
        ensures RefusalAt(kind, ds, i, base, value) == RefusalAt(kind, ds[1..], i - 1, base, value)
      {
        assert ds[1..][i..] == ds[i + 1..];
      }
      ApplyAllEffect(st, kind, j, value, ds[1..]);
      var (mid, rest) := ApplyAll(st, kind, j, value, ds[1..]);
      if rest.Success? {
        EffectMeans(st, mid, kind, j, |ds| - 1, Inits(kind, ds[1..], value), Extras(ds[1..], base));
        ApplyVerdict(mid, kind, j, rest.value, ds[0]);
        var last := Apply(mid, kind, j, rest.value, ds[0]).1;
        assert PassesAt(kind, ds, 0, base, value) == Passes(kind, ds[0], |mid.contexts|, rest.value);
        assert forall i :: 1 <= i < |ds| ==> PassesAt(kind, ds, i, base, value);
        assert last.Failure? ==> last.error == RefusalAt(kind, ds, 0, base, value);
      } else {
        var i :| 0 <= i < |ds| - 1 && !PassesAt(kind, ds[1..], i, base, value) && rest.error == RefusalAt(kind, ds[1..], i, base, value)
                 && forall k :: i < k < |ds| - 1 ==> PassesAt(kind, ds[1..], k, base, value);
        assert !PassesAt(kind, ds, i + 1, base, value) && rest.error == RefusalAt(kind, ds, i + 1, base, value);
      }
    }
  }

  /** An element in the array of its class. */
  lemma {:induction false} DecorateVerdict(st: State, e: Element)
    requires Valid(st) && AllDone(st) && ElementOk(e)
    ensures Ruled(e.kind, e.decorators, |st.contexts|, e.value, ErrorOf(Decorate(st, e).1))
  {
    hide ApplyAll, Ruled;
    ApplyAllVerdict(Open(st, e), e.kind, SlotOf(st, e), e.value, e.decorators);
  }

  /** Element `m` of a class: whether it is decorated without an error, and what it ends with. */
  ghost predicate RuledAt(es: seq<Element>, m: nat, error: Option<Error>)
    requires m < |es| && AllOk(es)
  {
    Ruled(es[m].kind, es[m].decorators, CountDecorators(es[..m]), es[m].value, error)
  }

  lemma {:induction false} RuledStill(es: seq<Element>, e: Element, m: nat, error: Option<Error>)
    requires AllOk(es) && AllOk(es + [e]) && m < |es|
    ensures RuledAt(es + [e], m, error) == RuledAt(es, m, error)
  {
    hide Ruled;
    assert (es + [e])[..m] == es[..m];
  }

  /** A class is decorated without an error exactly if all decorators of all its elements pass;
      else the error is that of the first element with one that does not. */
  lemma {:induction false} ClassVerdict(metadata: nat, es: seq<Element>)
    requires AllOk(es)
    ensures var r, m := DecorateAll(Start(metadata), es).1, Completed(metadata, es);
            && (r.Success? <==> m == |es|)
            && (forall k :: 0 <= k < m ==> RuledAt(es, k, None))
            && (r.Failure? ==> RuledAt(es, m, Some(r.error)))
    decreases |es|
  {
    hide DecorateAll, Completed, ClassDies, Decorate, LoopDies, LaidOut, Ruled, CountDecorators, AllDone;
    if es == [] {
      StartLaidOut(metadata);
    } else {
      var front, e := es[..|es| - 1], es[|es| - 1];
      assert es == front + [e];
      ClassVerdict(metadata, front);
      RunLayout(metadata, front);
      DecorateOneMore(metadata, front, e);
      var (before, values) := DecorateAll(Start(metadata), front);
      var m := Completed(metadata, front);
      LaidOutMeans(metadata, front, before, ToOption(values), m, ClassDies(metadata, front));
      forall k | 0 <= k < m ensures RuledAt(es, k, None) {
        RuledStill(front, e, k, None);
      }
      if values.Failure? {
        RuledStill(front, e, m, Some(values.error));
      } else {
        DecorateVerdict(before, e);
        assert es[..|front|] == front && RuledAt(es, |front|, ErrorOf(Decorate(before, e).1));
      }
    }
  }
}
