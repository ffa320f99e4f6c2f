/** The `using` / `await using` runtime: resources are pushed on a stack, and disposed of in
    reverse order, across suspensions, with failures chained into SuppressedErrors. */
module Disposal {
  import opened Wrappers

  /** A value that can be thrown. */
  datatype Error =
    | Raised(id: nat)
    | ObjectExpected
    | NotDisposable
    | Suppressed(error: Error, suppressed: Error)

  /** What calling a disposer does: throw at once, return a promise that rejects, or return
      anything else. */
  datatype Behaviour = Completes | Throws(thrown: Error) | Rejects(reason: Error)

  /** A stack entry: `[async, dispose, value]`, or the bare `[async]` of an empty resource. */
  datatype Entry = Resource(isAsync: bool, dispose: Behaviour) | Marker {

    /** The entry makes disposal wait for a promise. */
    predicate Suspends() {
      Marker? || (isAsync && !dispose.Throws?)
    }

    /** The failure the entry contributes. What a synchronous disposer returns is ignored. */
    function Failed(): seq<Error> {
      match this
      case Resource(_, Throws(e)) => [e]
      case Resource(true, Rejects(e)) => [e]
      case _ => []
    }
  }

  // ----- pushing: __using

  /** A property looked up on a resource: missing, null, a method, or anything else. */
  datatype Property = Undefined | Null | NotCallable | Method(behaviour: Behaviour)

  datatype Value = Nullish | Primitive | Object(asyncDispose: Property, dispose: Property)

  /** The entry `__using` pushes, if any, or the TypeError it throws. */
  function Acquire(value: Value, isAsync: bool): Result<seq<Entry>, Error> {
    match value
    case Nullish => Success(if isAsync then [Marker] else [])
    case Primitive => Failure(ObjectExpected)
    case Object(asyncDispose, dispose) =>
      match if isAsync && !asyncDispose.Undefined? then asyncDispose else dispose
      case Method(b) => Success([Resource(isAsync, b)])
      case _ => Failure(NotDisposable)
  }

  class Stack {
    var entries: seq<Entry>

    constructor ()
      ensures entries == []
    {
      entries := [];
    }

    method Using(value: Value, isAsync: bool) returns (r: Result<Value, Error>)
      modifies this
      ensures match Acquire(value, isAsync)
              case Success(pushed) => r == Success(value) && entries == old(entries) + pushed
              case Failure(e) => r == Failure(e) && entries == old(entries)
    {
      if value != Nullish {
        if value.Primitive? {
          return Failure(ObjectExpected);
        }
        var dispose := Undefined;
        if isAsync {
          dispose := value.asyncDispose;
        }
        if dispose == Undefined {
          dispose := value.dispose;
        }
        if !dispose.Method? {
          return Failure(NotDisposable);
        }
        entries := entries + [Resource(isAsync, dispose.behaviour)];
      } else if isAsync {
        entries := entries + [Marker];
      }
      r := Success(value);
    }
  }

  // ----- the meaning of disposal

  /** The failures of the entries from the top of the stack down to index `k`. */
  function FailuresTo(entries: seq<Entry>, k: nat): seq<Error>
    requires k <= |entries|
    decreases |entries| - k
  {
    if k == |entries| then [] else FailuresTo(entries, k + 1) + entries[k].Failed()
  }

  /** One more failure on top of what has failed before. */
  function Fail(before: Option<Error>, e: Error): Option<Error> {
    match before
    case None => Some(e)
    case Some(previous) => Some(Suppressed(e, previous))
  }

  function Chain(initial: Option<Error>, failures: seq<Error>): Option<Error> {
    if failures == [] then initial
    else Fail(Chain(initial, failures[..|failures| - 1]), failures[|failures| - 1])
  }

  function Outcome(initial: Option<Error>, entries: seq<Entry>): Result<(), Error> {
    match Chain(initial, FailuresTo(entries, 0))
    case None => Success(())
    case Some(e) => Failure(e)
  }

  /** What an observer sees of entry `index`: its disposal starts, and it has settled. */
  datatype Event = Started(index: nat) | Settled(index: nat)

  /** The events once every entry down to index `k` has settled. */
  function TraceTo(n: nat, k: nat): (t: seq<Event>)
    requires k <= n
    ensures |t| == 2 * (n - k)
    decreases n - k
  {
    if k == n then [] else TraceTo(n, k + 1) + [Started(k), Settled(k)]
  }

  // ----- popping: __callDispose

  /** One call of `__callDispose`: the captured `stack`, `error` and `hasError`, the promise
      being waited for, and how the call has ended if it has. */
  class Run {
    var stack: seq<Entry>
    var error: Error
    var hasError: bool
    var waiting: Option<Entry>
    var ended: Option<Result<(), Error>>
    ghost var trace: seq<Event>
    ghost const entries: seq<Entry>
    ghost const initial: Option<Error>

    ghost function Current(): Option<Error>
      reads this
    {
      if hasError then Some(error) else None
    }

    /** What is left of the stack is the bottom of the original one. */
    ghost predicate IsBottom()
      reads this
    {
      |stack| <= |entries| && stack == entries[..|stack|]
    }

    /** The entries from the top down to index `k` have settled one after the other, and the
        current error is the chain of their failures. */
    ghost predicate SettledTo(k: nat)
      reads this
    {
      && k <= |entries|
      && Current() == Chain(initial, FailuresTo(entries, k))
      && trace == TraceTo(|entries|, k)
    }

    /** The loop of `next` is running: nothing is awaited. */
    ghost predicate Running()
      reads this
    {
      IsBottom() && waiting.None? && ended.None? && SettledTo(|stack|)
    }

    /** Suspended on the entry just above the stack: it has started, and everything above it
        has settled. */
    ghost predicate Suspended()
      reads this
    {
      && IsBottom() && |stack| < |entries| && ended.None?
      && waiting == Some(entries[|stack|]) && entries[|stack|].Suspends()
      && Current() == Chain(initial, FailuresTo(entries, |stack| + 1))
      && trace == TraceTo(|entries|, |stack| + 1) + [Started(|stack|)]
    }

    ghost predicate Ended()
      reads this
    {
      && stack == [] && waiting.None? && SettledTo(0)
      && ended == Some(Outcome(initial, entries))
    }

    constructor (stack: seq<Entry>, error: Error, hasError: bool)
      ensures Running() && this.stack == stack && entries == stack
      ensures initial == if hasError then Some(error) else None
    {
      this.stack, this.error, this.hasError := stack, error, hasError;
      waiting, ended := None, None;
      entries, trace := stack, [];
      initial := if hasError then Some(error) else None;
    }

    method Failing(e: Error)
      modifies this`error, this`hasError
      ensures Current() == Fail(old(Current()), e)
    {
      error, hasError := if hasError then Suppressed(e, error) else e, true;
    }

    /** One iteration of `next`: pops the topmost entry and disposes of it. */
    method DisposeTop() returns (suspended: bool)
      requires Running() && stack != []
      modifies this
      ensures stack == old(stack)[..old(|stack|) - 1]
      ensures if suspended then Suspended() else Running()
      ensures suspended == entries[|stack|].Suspends()
    {
      hide Chain, FailuresTo, TraceTo;
      ghost var k := |stack| - 1;
      var it := stack[|stack| - 1];
      stack := stack[..|stack| - 1];
      assert it == entries[k] && entries[..k + 1][..k] == entries[..k];
      ChainStep(initial, entries, k);
      TraceStep(|entries|, k);
      trace := trace + [Started(k)];
      if it.Resource? && it.dispose.Throws? {
        Failing(it.dispose.thrown);
      } else if it.Marker? || it.isAsync {
        waiting := Some(it);
        return true;
      }
      trace := trace + [Settled(k)];
      suspended := false;
    }

    /** `next`: disposes of entries until one has to be awaited or none is left. */
    method Next()
      requires Running()
      modifies this
      ensures Suspended() || Ended()
      ensures |stack| <= old(|stack|) && (Suspended() ==> |stack| < old(|stack|))
      ensures Ended() ==> forall k :: 0 <= k < old(|stack|) ==> !entries[k].Suspends()
    {
      hide Chain, FailuresTo, TraceTo;
      while stack != []
        invariant Running() && |stack| <= old(|stack|)
        invariant forall k :: |stack| <= k < old(|stack|) ==> !entries[k].Suspends()
        decreases |stack|
      {
        var suspended := DisposeTop();
        if suspended {
          return;
        }
      }
      ended := Some(if hasError then Failure(error) else Success(()));
    }

    /** The promise being waited for settles: its rejection is a failure, and `next` goes on. */
    method OnSettled()
      requires Suspended()
      modifies this
      ensures Suspended() || Ended()
      ensures |stack| <= old(|stack|) && (Suspended() ==> |stack| < old(|stack|))
    {
      hide Chain, FailuresTo, TraceTo;
      var it := waiting.value;
      waiting := None;
      ChainStep(initial, entries, |stack|);
      TraceStep(|entries|, |stack|);
      if it.Resource? && it.dispose.Rejects? {
        Failing(it.dispose.reason);
      }
      trace := trace + [Settled(|stack|)];
      Next();
    }
  }

  /** Settling entry `k` adds its failure, if any, to the chain. */
  lemma {:induction false} ChainStep(initial: Option<Error>, entries: seq<Entry>, k: nat)
    requires k < |entries|
    ensures var before, failed := Chain(initial, FailuresTo(entries, k + 1)), entries[k].Failed();
            Chain(initial, FailuresTo(entries, k)) == if failed == [] then before else Fail(before, failed[0])
  {
    var fs, failed := FailuresTo(entries, k + 1), entries[k].Failed();
    if failed == [] {
      assert fs + failed == fs;
    } else {
      assert (fs + failed)[..|fs|] == fs;
    }
  }

  /** Starting and then settling entry `k` extends the events. */
  lemma {:induction false} TraceStep(n: nat, k: nat)
    requires k < n
    ensures TraceTo(n, k) == (TraceTo(n, k + 1) + [Started(k)]) + [Settled(k)]
  {
    assert TraceTo(n, k) == TraceTo(n, k + 1) + ([Started(k)] + [Settled(k)]);
  }

  /** If every awaited promise settles, disposal ends, having visited every entry, with the
      outcome of the fold. It had to wait exactly if some entry suspends. */
  method CallDispose(stack: seq<Entry>, error: Error, hasError: bool)
      returns (outcome: Result<(), Error>, isPromise: bool, ghost trace: seq<Event>)
    ensures outcome == Outcome(if hasError then Some(error) else None, stack)
    ensures isPromise <==> exists k :: 0 <= k < |stack| && stack[k].Suspends()
    ensures trace == TraceTo(|stack|, 0)
  {
    var run := new Run(stack, error, hasError);
    run.Next();
    isPromise := run.waiting.Some?;
    assert isPromise ==> run.entries[|run.stack|].Suspends();
    while run.waiting.Some?
      invariant fresh(run) && (run.Suspended() || run.Ended())
      decreases |run.stack|, run.waiting.Some?
    {
      run.OnSettled();
    }
    outcome, trace := run.ended.value, run.trace;
  }

  // ----- what the outcome depends on

  /** Entry `e` as a synchronous resource that throws whatever made `e` fail. */
  function AsSync(e: Entry): Entry {
    Resource(false, if e.Failed() == [] then Completes else Throws(e.Failed()[0]))
  }

  /** The stack with markers removed and every failure a synchronous throw. */
  function Synchronous(entries: seq<Entry>): seq<Entry> {
    if entries == [] then []
    else (if entries[0].Marker? then [] else [AsSync(entries[0])]) + Synchronous(entries[1..])
  }

  lemma {:induction false} FailuresOfTail(entries: seq<Entry>, k: nat)
    requires 1 <= k <= |entries|
    ensures FailuresTo(entries, k) == FailuresTo(entries[1..], k - 1)
    decreases |entries| - k
  {
    if k < |entries| {
      FailuresOfTail(entries, k + 1);
    }
  }

  lemma {:induction false} SameFailures(entries: seq<Entry>)
    ensures FailuresTo(Synchronous(entries), 0) == FailuresTo(entries, 0)
  {
    if entries != [] {
      SameFailures(entries[1..]);
      FailuresOfTail(entries, 1);
      var rest := Synchronous(entries[1..]);
      if entries[0].Marker? {
        assert Synchronous(entries) == rest;
      } else {
        var sync := [AsSync(entries[0])] + rest;
        assert sync[1..] == rest;
        FailuresOfTail(sync, 1);
      }
    }
  }

  /** Neither suspension, nor empty async resources, nor the way an entry fails matters. */
  lemma {:induction false} OutcomeIgnoresSuspension(initial: Option<Error>, entries: seq<Entry>)
    ensures Outcome(initial, entries) == Outcome(initial, Synchronous(entries))
    ensures forall k :: 0 <= k < |Synchronous(entries)| ==> !Synchronous(entries)[k].Suspends()
  {
    SameFailures(entries);
    NoneSuspends(entries);
  }

  lemma {:induction false} NoneSuspends(entries: seq<Entry>)
    ensures forall k :: 0 <= k < |Synchronous(entries)| ==> !Synchronous(entries)[k].Suspends()
  {
    if entries != [] {
      NoneSuspends(entries[1..]);
    }
  }

  /** The failures stored in a chain of `k` SuppressedErrors, oldest first. */
  function Unwrap(e: Error, k: nat): seq<Error> {
    if k == 0 || !e.Suppressed? then [e] else Unwrap(e.suppressed, k - 1) + [e.error]
  }

  /** No failure is lost: the error thrown holds them all, in the order they happened. */
  lemma {:induction false} NoFailureLost(initial: Option<Error>, failures: seq<Error>)
    ensures var all := (if initial.Some? then [initial.value] else []) + failures;
            && (Chain(initial, failures).None? <==> all == [])
            && (all != [] ==> Unwrap(Chain(initial, failures).value, |all| - 1) == all)
  {
    if failures != [] {
      NoFailureLost(initial, failures[..|failures| - 1]);
      assert failures == failures[..|failures| - 1] + [failures[|failures| - 1]];
    }
  }

  /** The entries are visited in strict LIFO order, each once, and none is started before
      the one above it has settled. */
  lemma {:induction false} TraceIsLifo(n: nat, k: nat, j: nat)
    requires k + j < n
    ensures TraceTo(n, k)[2 * j] == Started(n - 1 - j)
    ensures TraceTo(n, k)[2 * j + 1] == Settled(n - 1 - j)
    decreases n - k
  {
    if k + 1 + j < n {
      TraceIsLifo(n, k + 1, j);
    }
  }
}
