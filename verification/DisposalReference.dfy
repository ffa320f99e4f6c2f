/** The runtime against the operation it follows, DisposeResources of the TC39 Explicit Resource
    Management proposal: when the two end the same, and when they wait equally often. */
module DisposalReference {
  import opened Disposal
  import opened Wrappers

  /** The dispose method of a resource: none for an empty `await using`; its own; or, for
      `await using` without an async one, the synchronous one as a fallback. */
  datatype DisposeMethod = NoMethod | Own(behaviour: Behaviour) | Fallback(behaviour: Behaviour)

  datatype Held = Held(isAsync: bool, dispose: DisposeMethod) {
    predicate Ok() {
      !isAsync ==> dispose.Own?
    }

    /** What the runtime pushes for it. */
    function Pushed(): Entry {
      match dispose
      case NoMethod => Marker
      case Own(b) => Resource(isAsync, b)
      case Fallback(b) => Resource(isAsync, b)
    }

    /** The failure it contributes by the proposal: what a fallback returns is not looked at. */
    function Failure(): seq<Error> {
      match dispose
      case NoMethod => []
      case Own(Throws(e)) => [e]
      case Own(Rejects(e)) => if isAsync then [e] else []
      case Fallback(Throws(e)) => [e]
      case _ => []
    }

    /** A fallback that returns a promise that rejects. */
    predicate FallbackRejects() {
      dispose.Fallback? && dispose.behaviour.Rejects?
    }
  }

  // ----- the dispose method of a value

  /** GetMethod: none for a property that is undefined or null. */
  function MethodOf(p: Property): Result<Option<Behaviour>, Error> {
    match p
    case Method(b) => Result.Success(Some(b))
    case NotCallable => Result.Failure(NotDisposable)
    case _ => Result.Success(None)
  }

  /** What the proposal adds for the value of a declaration: the async method of an
      `await using`, or else the other one as a fallback; nothing for a null `using`. */
  function Added(value: Value, isAsync: bool): Result<Option<Held>, Error> {
    match value
    case Nullish => Result.Success(if isAsync then Some(Held(true, NoMethod)) else None)
    case Primitive => Result.Failure(ObjectExpected)
    case Object(asyncDispose, dispose) =>
      var own :- if isAsync then MethodOf(asyncDispose) else Result.Success(None);
      if own.Some? then Result.Success(Some(Held(true, Own(own.value))))
      else
        var other :- MethodOf(dispose);
        match other
        case Some(b) => Result.Success(Some(Held(isAsync, if isAsync then Fallback(b) else Own(b))))
        case None => Result.Failure(NotDisposable)
  }

  /** Where the runtime differs: it refuses a null async disposer, which the proposal passes over. */
  predicate NullPassedOver(value: Value, isAsync: bool) {
    isAsync && value.Object? && value.asyncDispose.Null? && value.dispose.Method?
  }

  /** The runtime pushes what the proposal adds, or raises the same error, exactly if the async
      disposer is not null beside another one. */
  lemma {:induction false} PushesWhatIsAdded(value: Value, isAsync: bool)
    ensures (match Added(value, isAsync)
             case Success(None) => Acquire(value, isAsync) == Result.Success([])
             case Success(Some(h)) => h.Ok() && Acquire(value, isAsync) == Result.Success([h.Pushed()])
             case Failure(e) => Acquire(value, isAsync) == Result.Failure(e))
       <==> !NullPassedOver(value, isAsync)
  {
  }

  /** A declaration: the value, and whether it is an `await using`. */
  datatype Use = Use(value: Value, isAsync: bool)

  /** The stack after declarations, where one that raises an error adds nothing. */
  function StackOf(uses: seq<Use>): seq<Entry> {
    if uses == [] then []
    else
      var last := uses[|uses| - 1];
      StackOf(uses[..|uses| - 1]) + match Acquire(last.value, last.isAsync) case Success(es) => es case Failure(_) => []
  }

  function HeldBy(uses: seq<Use>): seq<Held> {
    if uses == [] then []
    else
      var last := uses[|uses| - 1];
      HeldBy(uses[..|uses| - 1]) + match Added(last.value, last.isAsync) case Success(Some(h)) => [h] case _ => []
  }

  predicate AllHeldOk(held: seq<Held>) {
    forall h :: h in held ==> h.Ok()
  }

  /** The failures from the top of the stack down, by the proposal. */
  function ReferenceFailures(held: seq<Held>): seq<Error> {
    if held == [] then [] else ReferenceFailures(held[1..]) + held[0].Failure()
  }

  function ReferenceOutcome(initial: Option<Error>, held: seq<Held>): Result<(), Error> {
    match Chain(initial, ReferenceFailures(held))
    case None => Result.Success(())
    case Some(e) => Result.Failure(e)
  }

  function Entries(held: seq<Held>): (es: seq<Entry>)
    ensures |es| == |held|
  {
    if held == [] then [] else [held[0].Pushed()] + Entries(held[1..])
  }

  // ----- the outcome

  /** How many errors hang together in one. */
  function Size(e: Error): nat {
    match e
    case Suppressed(error, suppressed) => 1 + Size(error) + Size(suppressed)
    case _ => 1
  }

  function SizeOf(e: Option<Error>): nat {
    match e
    case None => 0
    case Some(e) => Size(e)
  }

  lemma {:induction false} ChainMore(initial: Option<Error>, failures: seq<Error>, e: Error)
    ensures Chain(initial, failures + [e]) == Fail(Chain(initial, failures), e)
    ensures Chain(initial, failures + []) == Chain(initial, failures)
  {
    assert (failures + [e])[..|failures|] == failures && (failures + [e])[|failures|] == e;
    assert failures + [] == failures;
  }

  lemma {:induction false} FailuresOfEntries(held: seq<Held>)
    ensures FailuresTo(Entries(held), 0)
         == if held == [] then [] else FailuresTo(Entries(held[1..]), 0) + held[0].Pushed().Failed()
  {
    if held != [] {
      FailuresOfTail(Entries(held), 1);
      assert Entries(held)[1..] == Entries(held[1..]);
    }
  }

  lemma {:induction false} ChainsCompare(initial: Option<Error>, held: seq<Held>)
    requires AllHeldOk(held)
    ensures var ours, theirs := Chain(initial, FailuresTo(Entries(held), 0)), Chain(initial, ReferenceFailures(held));
            if exists h :: h in held && h.FallbackRejects() then SizeOf(ours) > SizeOf(theirs) else ours == theirs
  {
    hide FailuresTo, Chain;
    FailuresOfEntries(held);
    if held != [] {
      var h := held[0];
      ChainsCompare(initial, held[1..]);
      assert h in held;
      assert forall g :: g in held <==> g == h || g in held[1..];
      var ours, theirs := FailuresTo(Entries(held[1..]), 0), ReferenceFailures(held[1..]);
      var e := if h.Pushed().Failed() == [] then ObjectExpected else h.Pushed().Failed()[0];
      ChainMore(initial, ours, e);
      ChainMore(initial, theirs, e);
    }
  }

  /** The runtime ends as the proposal says exactly if no synchronous disposer that stands in
      for an async one returns a promise that rejects: the runtime waits for that promise. */
  lemma {:induction false} AgreesUnlessFallbackRejects(initial: Option<Error>, held: seq<Held>)
    requires AllHeldOk(held)
    ensures Outcome(initial, Entries(held)) == ReferenceOutcome(initial, held)
       <==> forall h :: h in held ==> !h.FallbackRejects()
  {
    hide Chain, FailuresTo, ReferenceFailures;
    ChainsCompare(initial, held);
  }

  /** The declared value is disposed of by a synchronous disposer whose promise rejects. */
  predicate RejectingFallback(u: Use) {
    u.isAsync && u.value.Object? && u.value.asyncDispose.Undefined? && u.value.dispose.Method? && u.value.dispose.behaviour.Rejects?
  }

  lemma {:induction false} StacksAgree(uses: seq<Use>)
    requires forall u :: u in uses ==> !NullPassedOver(u.value, u.isAsync)
    ensures StackOf(uses) == Entries(HeldBy(uses)) && AllHeldOk(HeldBy(uses))
    ensures (forall h :: h in HeldBy(uses) ==> !h.FallbackRejects()) <==> (forall u :: u in uses ==> !RejectingFallback(u))
  {
    hide NullPassedOver;
    if uses != [] {
      var front, last := uses[..|uses| - 1], uses[|uses| - 1];
      assert forall u :: u in uses <==> u in front || u == last;
      StacksAgree(front);
      PushesWhatIsAdded(last.value, last.isAsync);
      match Added(last.value, last.isAsync) {
        case Success(Some(h)) =>
          EntriesMore(HeldBy(front), h);
          assert h.FallbackRejects() == RejectingFallback(last);
        case _ =>
          assert !RejectingFallback(last);
          assert HeldBy(front) + [] == HeldBy(front) && StackOf(front) + [] == StackOf(front);
      }
    }
  }

  /** Over the declared values: whatever is declared, in whatever order, the runtime ends as the
      proposal says exactly if no fallback returns a promise that rejects. */
  lemma {:induction false} DisposesAsProposed(initial: Option<Error>, uses: seq<Use>)
    requires forall u :: u in uses ==> !NullPassedOver(u.value, u.isAsync)
    ensures Outcome(initial, StackOf(uses)) == ReferenceOutcome(initial, HeldBy(uses))
       <==> forall u :: u in uses ==> !RejectingFallback(u)
  {
    hide NullPassedOver, RejectingFallback, Outcome, ReferenceOutcome, AllHeldOk, StackOf, HeldBy;
    StacksAgree(uses);
    AgreesUnlessFallbackRejects(initial, HeldBy(uses));
  }

  lemma {:induction false} EntriesMore(held: seq<Held>, h: Held)
    ensures Entries(held + [h]) == Entries(held) + [h.Pushed()]
  {
    if held == [] {
      assert [] + [h] == [h];
    } else {
      assert (held + [h])[1..] == held[1..] + [h];
      EntriesMore(held[1..], h);
    }
  }

  // ----- how often disposal waits

  function Waits(entries: seq<Entry>): nat {
    if entries == [] then 0 else Waits(entries[1..]) + if entries[0].Suspends() then 1 else 0
  }

  /** The waits of the proposal so far, and its two flags. */
  datatype Waiting = Waiting(count: nat, needsAwait: bool, hasAwaited: bool)

  /** Disposal from the top of the stack down: an empty resource only asks for a wait, which
      the next synchronous one takes unless there has been one; a fallback always waits. */
  function ReferenceWaiting(held: seq<Held>): Waiting {
    if held == [] then Waiting(0, false, false)
    else
      var w := ReferenceWaiting(held[1..]);
      if !held[0].isAsync then
        if w.needsAwait && !w.hasAwaited then Waiting(w.count + 1, false, w.hasAwaited) else w
      else
        match held[0].dispose
        case NoMethod => w.(needsAwait := true)
        case Own(Throws(_)) => w
        case _ => Waiting(w.count + 1, w.needsAwait, true)
  }

  function ReferenceWaits(held: seq<Held>): nat {
    var w := ReferenceWaiting(held);
    w.count + if w.needsAwait && !w.hasAwaited then 1 else 0
  }

  predicate IsEmpty(h: Held) {
    h.dispose.NoMethod?
  }

  /** The proposal waits for what the method returns; that of a fallback is wrapped in a promise
      even if it throws. */
  predicate IsAwaited(h: Held) {
    h.isAsync && (h.dispose.Fallback? || (h.dispose.Own? && !h.dispose.behaviour.Throws?))
  }

  /** The runtime does not wait then. */
  predicate FallbackThrows(h: Held) {
    h.dispose.Fallback? && h.dispose.behaviour.Throws?
  }

  function CountThrowing(held: seq<Held>): nat {
    if held == [] then 0 else CountThrowing(held[1..]) + if FallbackThrows(held[0]) then 1 else 0
  }

  ghost predicate SomeAwaited(held: seq<Held>) {
    exists j :: 0 <= j < |held| && IsAwaited(held[j])
  }

  /** The lowest resource is an empty one, leaving aside async methods that throw. */
  ghost predicate OpenEmpty(held: seq<Held>) {
    exists j :: 0 <= j < |held| && IsEmpty(held[j]) && forall k :: 0 <= k < j ==> held[k].isAsync && !IsAwaited(held[k])
  }

  /** How many empty resources the proposal does not wait for: those below an awaited one or
      next to another empty one, and those with an awaited one next below. */
  ghost function Spared(held: seq<Held>): nat {
    if held == [] then 0
    else
      var h, above := held[0], held[1..];
      Spared(above) +
      if IsEmpty(h) then if SomeAwaited(above) || OpenEmpty(above) then 1 else 0
      else if IsAwaited(h) && !SomeAwaited(above) && OpenEmpty(above) then 1 else 0
  }

  /** No awaited resource stands above an empty one, and where an empty one stands above an
      empty or awaited one, a synchronous one stands between them. */
  ghost predicate Apart(held: seq<Held>) {
    forall i, j :: 0 <= i < j < |held| ==>
      && (IsEmpty(held[i]) ==> !IsAwaited(held[j]))
      && (IsEmpty(held[j]) && (IsEmpty(held[i]) || IsAwaited(held[i])) ==> SyncBetween(held, i, j))
  }

  ghost predicate SyncBetween(held: seq<Held>, i: nat, j: nat)
    requires i <= j <= |held|
  {
    exists k :: i < k < j && !held[k].isAsync
  }

  lemma {:induction false} OneBelow(held: seq<Held>)
    requires held != []
    ensures SomeAwaited(held) <==> IsAwaited(held[0]) || SomeAwaited(held[1..])
    ensures OpenEmpty(held) <==> IsEmpty(held[0]) || (held[0].isAsync && !IsAwaited(held[0]) && OpenEmpty(held[1..]))
  {
    var above := held[1..];
    assert forall k :: 1 <= k < |held| ==> held[k] == above[k - 1];
    if j :| 0 <= j < |above| && IsAwaited(above[j]) {
      assert held[j + 1] == above[j];
    }
    if j :| 0 <= j < |above| && IsEmpty(above[j]) && forall k :: 0 <= k < j ==> above[k].isAsync && !IsAwaited(above[k]) {
      assert held[j + 1] == above[j];
    }
    if j :| 1 <= j < |held| && IsEmpty(held[j]) && forall k :: 0 <= k < j ==> held[k].isAsync && !IsAwaited(held[k]) {
      forall k | 0 <= k < j - 1 ensures above[k].isAsync && !IsAwaited(above[k]) {
        assert above[k] == held[k + 1];
      }
    }
  }

  /** The proposal waits more often by the fallbacks that throw at once, and less often by the
      empty resources it spares. */
  lemma {:induction false} WaitsCompare(held: seq<Held>)
    requires AllHeldOk(held)
    ensures ReferenceWaits(held) + Spared(held) == Waits(Entries(held)) + CountThrowing(held)
    ensures ReferenceWaiting(held).hasAwaited <==> SomeAwaited(held)
    ensures !SomeAwaited(held) ==> (ReferenceWaiting(held).needsAwait <==> OpenEmpty(held))
    ensures CountThrowing(held) == 0 <==> forall h :: h in held ==> !FallbackThrows(h)
  {
    if held != [] {
      WaitsCompare(held[1..]);
      OneBelow(held);
      assert held[0] in held && Entries(held)[1..] == Entries(held[1..]);
    }
  }

  /** What is apart, one resource further down. */
  lemma {:induction false} ApartBelow(held: seq<Held>)
    requires held != []
    ensures Apart(held) <==>
              && Apart(held[1..])
              && (IsEmpty(held[0]) ==> !SomeAwaited(held[1..]))
              && forall j :: 1 <= j < |held| && IsEmpty(held[j]) && (IsEmpty(held[0]) || IsAwaited(held[0])) ==> SyncBetween(held, 0, j)
  {
    var above := held[1..];
    forall i, j | 0 <= i < j < |above| ensures SyncBetween(above, i, j) <==> SyncBetween(held, i + 1, j + 1) {
      assert forall k :: i < k < j ==> above[k] == held[k + 1];
      if k :| i + 1 < k < j + 1 && !held[k].isAsync {
        assert !above[k - 1].isAsync;
      }
    }
    assert forall k :: 1 <= k < |held| ==> held[k] == above[k - 1];
  }

  /** An empty resource stands above the lowest one, with no synchronous one between them. */
  ghost predicate Blocked(held: seq<Held>) {
    exists j :: 1 <= j < |held| && IsEmpty(held[j]) && !SyncBetween(held, 0, j)
  }

  lemma {:induction false} BlockedMeans(held: seq<Held>)
    requires held != [] && Apart(held[1..]) && Blocked(held)
    ensures OpenEmpty(held[1..]) && !SomeAwaited(held[1..])
  {
    var above := held[1..];
    var j :| 1 <= j < |held| && IsEmpty(held[j]) && !SyncBetween(held, 0, j);
    assert above[j - 1] == held[j];
    forall k | 0 <= k < j - 1 ensures above[k].isAsync {
      assert above[k] == held[k + 1];
    }
    forall a | 0 <= a < |above| ensures !IsAwaited(above[a]) {
      assert a < j - 1 ==> !SyncBetween(above, a, j - 1);
    }
  }

  lemma {:induction false} NextAbove(held: seq<Held>)
    requires held != [] && Apart(held[1..])
    ensures OpenEmpty(held[1..]) <==> Blocked(held)
    ensures SomeAwaited(held[1..]) ==> !Blocked(held)
  {
    hide Apart;
    var above := held[1..];
    assert forall k :: 1 <= k < |held| ==> held[k] == above[k - 1];
    if Blocked(held) {
      BlockedMeans(held);
    }
    if OpenEmpty(above) {
      var j :| 0 <= j < |above| && IsEmpty(above[j]) && forall k :: 0 <= k < j ==> above[k].isAsync && !IsAwaited(above[k]);
      assert IsEmpty(held[j + 1]) && !SyncBetween(held, 0, j + 1);
    }
  }

  /** The proposal spares no wait exactly if the resources are apart. */
  lemma {:induction false} NothingSpared(held: seq<Held>)
    ensures Spared(held) == 0 <==> Apart(held)
  {
    hide SyncBetween;
    if held != [] {
      hide Apart;
      NothingSpared(held[1..]);
      ApartBelow(held);
      if Apart(held[1..]) {
        NextAbove(held);
      }
    }
  }

  /** Exactly when the two wait equally often. If no fallback throws at once, the runtime never
      waits less, and equally often exactly if the resources are apart; if they are apart, it
      never waits more, and equally often exactly if no fallback throws at once. */
  lemma {:induction false} WaitsAgree(held: seq<Held>)
    requires AllHeldOk(held)
    ensures ReferenceWaits(held) == Waits(Entries(held)) <==> Spared(held) == CountThrowing(held)
    ensures (forall h :: h in held ==> !FallbackThrows(h)) ==>
              && ReferenceWaits(held) <= Waits(Entries(held))
              && (ReferenceWaits(held) == Waits(Entries(held)) <==> Apart(held))
    ensures Apart(held) ==>
              && ReferenceWaits(held) >= Waits(Entries(held))
              && (ReferenceWaits(held) == Waits(Entries(held)) <==> forall h :: h in held ==> !FallbackThrows(h))
  {
    hide ReferenceWaits, Waits, Apart, Spared, CountThrowing, FallbackThrows, AllHeldOk;
    WaitsCompare(held);
    NothingSpared(held);
  }

  function Empties(n: nat): seq<Held> {
    seq(n, _ => Held(true, NoMethod))
  }

  /** Of empty resources the proposal waits once for all, the runtime for each. */
  lemma {:induction false} EmptiesWaitEach(n: nat)
    ensures Waits(Entries(Empties(n))) == n
    ensures ReferenceWaits(Empties(n)) == if n == 0 then 0 else 1
    ensures ReferenceWaiting(Empties(n)) == Waiting(0, n > 0, false)
  {
    if n > 0 {
      EmptiesWaitEach(n - 1);
      assert Empties(n)[1..] == Empties(n - 1);
      assert Entries(Empties(n))[1..] == Entries(Empties(n - 1));
    }
  }
}
