/** The lazy module wrappers of the bundler runtime, `__esm` and `__commonJS`: a system of
    wrappers whose bodies may call one another, in cycles too. */
module ModuleWrappers {
  import opened Wrappers

  /** Values that wrappers return. Objects are numbered in the order they are allocated. */
  datatype Value = Undefined | Object(ref: nat) | Other(tag: int)

  datatype Outcome = Returned(value: Value) | Thrown

  /** A body as the tree of its effects. A call goes on with `onReturn` or `onThrow`; a body
      that does not catch has `Throw` there. */
  datatype Program =
    | Finish(value: Value)
    | Throw
    | Invoke(callee: nat, onReturn: Program, onThrow: Program)
    | SetExports(exports: Value, next: Program)

  datatype Kind = Esm | CommonJs

  datatype Wrapper = Wrapper(kind: Kind, body: Program)

  type System = seq<Wrapper>

  /** What an observer sees: bodies beginning, with the exports object allocated for them if
      any, and ending, and calls coming back to whoever made them, with whether the wrapper
      called has finished its body by then. */
  datatype Event = Began(id: nat, made: Option<nat>) | Ended(id: nat) | Failed(id: nat) | Resumed(caller: Option<nat>, callee: nat, outcome: Outcome, complete: bool)

  /** `started` holds the wrappers whose `fn` is 0, or whose `mod` is set; `objects` is
      the number of objects allocated. */
  datatype State = State(started: set<nat>, finished: set<nat>, res: map<nat, Value>, exports: map<nat, Value>,
                         objects: nat, log: seq<Event>)

  const INITIAL := State({}, {}, map[], map[], 0, [])

  function Ids(n: nat): (s: set<nat>)
    ensures forall i: nat :: i in s <==> i < n
  {
    if n == 0 then {} else Ids(n - 1) + {n - 1}
  }

  ghost predicate WellFormed(sys: System, st: State) {
    && st.started <= Ids(|sys|)
    && st.res.Keys <= st.started
    && forall i :: i in st.started && sys[i].kind == CommonJs ==> i in st.exports
  }

  /** What a call of a wrapper that has been started before returns. */
  function Again(sys: System, st: State, id: nat): Value
    requires WellFormed(sys, st) && id < |sys| && id in st.started
  {
    match sys[id].kind
    case Esm => if id in st.res then st.res[id] else Undefined
    case CommonJs => st.exports[id]
  }

  /** A body begins: the wrapper counts as started from here on. */
  function Begin(sys: System, st: State, id: nat): State
    requires id < |sys|
  {
    if sys[id].kind == CommonJs then
      st.(started := st.started + {id}, log := st.log + [Began(id, Some(st.objects))],
          exports := st.exports[id := Object(st.objects)], objects := st.objects + 1)
    else
      st.(started := st.started + {id}, log := st.log + [Began(id, None)])
  }

  /** A call comes back to its caller. */
  function ComeBack(st: State, caller: Option<nat>, callee: nat, o: Outcome): State {
    st.(log := st.log + [Resumed(caller, callee, o, callee in st.finished)])
  }

  /** The end of a body. */
  function End(sys: System, st: State, id: nat, o: Outcome): State
    requires id < |sys|
  {
    match o
    case Thrown => st.(log := st.log + [Failed(id)])
    case Returned(v) =>
      st.(finished := st.finished + {id}, log := st.log + [Ended(id)],
          res := if sys[id].kind == Esm then st.res[id := v] else st.res)
  }

  function Unstarted(sys: System, st: State): set<nat> {
    Ids(|sys|) - st.started
  }

  function Call(sys: System, st: State, id: nat): (r: (Outcome, State))
    requires WellFormed(sys, st)
    ensures WellFormed(sys, r.1) && st.started <= r.1.started
    ensures id < |sys| ==> id in r.1.started
    decreases Unstarted(sys, st), 0, Finish(Undefined)
  {
    if id >= |sys| then (Thrown, st)  // an unresolved name
    else if id in st.started then (Returned(Again(sys, st, id)), st)
    else
      var begun := Begin(sys, st, id);
      assert id in Unstarted(sys, st) && id !in Unstarted(sys, begun);
      var (o, after) := Run(sys, begun, id, sys[id].body);
      var ended := End(sys, after, id, o);
      (if o.Thrown? then Thrown else Returned(Again(sys, ended, id)), ended)
  }

  function Run(sys: System, st: State, id: nat, p: Program): (r: (Outcome, State))
    requires WellFormed(sys, st) && id in st.started
    ensures WellFormed(sys, r.1) && st.started <= r.1.started
    decreases Unstarted(sys, st), 1, p
  {
    match p
    case Finish(v) => (Returned(v), st)
    case Throw => (Thrown, st)
    case SetExports(v, next) => Run(sys, st.(exports := st.exports[id := v]), id, next)
    case Invoke(callee, onReturn, onThrow) =>
      var (o, after) := Call(sys, st, callee);
      var resumed := ComeBack(after, Some(id), callee, o);
      assert Unstarted(sys, resumed) <= Unstarted(sys, st);
      Run(sys, resumed, id, if o.Returned? then onReturn else onThrow)
  }

  /** A sequence of calls from outside; what they throw is caught there. */
  function CallAll(sys: System, st: State, ids: seq<nat>): (after: State)
    requires WellFormed(sys, st)
    ensures WellFormed(sys, after) && st.started <= after.started
    decreases |ids|
  {
    if ids == [] then st
    else
      var (o, after) := Call(sys, st, ids[0]);
      CallAll(sys, ComeBack(after, None, ids[0], o), ids[1..])
  }

  // ----- the wrappers as closures over shared variables

  /** The captured variables of all the wrappers. */
  class Runtime {
    const sys: System
    var started: set<nat>
    var finished: set<nat>
    var res: map<nat, Value>
    var exports: map<nat, Value>
    var objects: nat
    var log: seq<Event>

    function Current(): State
      reads this
    {
      State(started, finished, res, exports, objects, log)
    }

    constructor (sys: System)
      ensures this.sys == sys && Current() == INITIAL
    {
      this.sys := sys;
      started, finished, res, exports, objects, log := {}, {}, map[], map[], 0, [];
    }

    method CallWrapper(id: nat) returns (o: Outcome)
      requires WellFormed(sys, Current()) && id < |sys|
      modifies this
      ensures (o, Current()) == Call(sys, old(Current()), id)
      decreases Unstarted(sys, Current()), 0, Finish(Undefined)
    {
      if id !in started {
        assert id in Unstarted(sys, old(Current()));
        started := started + {id};
        if sys[id].kind == CommonJs {
          log := log + [Began(id, Some(objects))];
          exports := exports[id := Object(objects)];
          objects := objects + 1;
        } else {
          log := log + [Began(id, None)];
        }
        assert Current() == Begin(sys, old(Current()), id);
        o := RunBody(id, sys[id].body);
        if o.Thrown? {
          log := log + [Failed(id)];
          return;
        }
        finished := finished + {id};
        log := log + [Ended(id)];
        if sys[id].kind == Esm {
          res := res[id := o.value];
        }
      }
      if sys[id].kind == Esm {
        o := Returned(if id in res then res[id] else Undefined);
      } else {
        o := Returned(exports[id]);
      }
    }

    method RunBody(id: nat, p: Program) returns (o: Outcome)
      requires WellFormed(sys, Current()) && id in started
      modifies this
      ensures (o, Current()) == Run(sys, old(Current()), id, p)
      decreases Unstarted(sys, Current()), 1, p
    {
      match p
      case Finish(v) =>
        o := Returned(v);
      case Throw =>
        o := Thrown;
      case SetExports(v, next) =>
        exports := exports[id := v];
        o := RunBody(id, next);
      case Invoke(callee, onReturn, onThrow) =>
        if callee < |sys| {
          o := CallWrapper(callee);
        } else {
          o := Thrown;
        }
        log := log + [Resumed(Some(id), callee, o, callee in finished)];
        assert Current() == ComeBack(Call(sys, old(Current()), callee).1, Some(id), callee, o);
        assert Unstarted(sys, Current()) <= Unstarted(sys, old(Current()));
        if o.Returned? {
          o := RunBody(id, onReturn);
        } else {
          o := RunBody(id, onThrow);
        }
    }
  }

  // ----- each body runs at most once

  /** No body begins twice, and no object is made twice. */
  ghost predicate NoneTwice(log: seq<Event>) {
    forall i, j :: 0 <= i < j < |log| && log[i].Began? && log[j].Began? ==>
      log[i].id != log[j].id && (log[i].made.Some? ==> log[i].made != log[j].made)
  }

  /** The bodies that have begun are those of the started wrappers. */
  ghost predicate BegunAre(log: seq<Event>, started: set<nat>) {
    forall id: nat :: id in started <==> exists i :: 0 <= i < |log| && log[i].Began? && log[i].id == id
  }

  /** The next object has not been made yet. */
  ghost predicate NextIsNew(log: seq<Event>, objects: nat) {
    forall i :: 0 <= i < |log| && log[i].Began? && log[i].made.Some? ==> objects > log[i].made.value
  }

  /** The log shows one beginning for each started wrapper and none for any other, and every
      object it allocates is a new one. */
  ghost predicate BeganOnce(st: State) {
    NoneTwice(st.log) && BegunAre(st.log, st.started) && NextIsNew(st.log, st.objects)
  }

  lemma {:induction false} BegunWith(log: seq<Event>, started: set<nat>, e: Event)
    requires BegunAre(log, started)
    ensures BegunAre(log + [e], if e.Began? then started + {e.id} else started)
  {
    var all := log + [e];
    assert all[|log|] == e;
    forall id | id in started ensures exists i :: 0 <= i < |all| && all[i].Began? && all[i].id == id {
      var i :| 0 <= i < |log| && log[i].Began? && log[i].id == id;
      assert all[i] == log[i];
    }
  }

  lemma {:induction false} BeginOnce(sys: System, st: State, id: nat)
    requires id < |sys| && BeganOnce(st) && id !in st.started
    ensures BeganOnce(Begin(sys, st, id))
  {
    var e := if sys[id].kind == CommonJs then Began(id, Some(st.objects)) else Began(id, None);
    BegunWith(st.log, st.started, e);
    assert NoneTwice(st.log + [e]);
    hide NoneTwice, BegunAre;
  }

  /** An event that is no beginning changes nothing. */
  lemma {:induction false} OnceWith(st: State, after: State, e: Event)
    requires BeganOnce(st) && !e.Began?
    requires after.log == st.log + [e] && after.started == st.started && after.objects == st.objects
    ensures BeganOnce(after)
  {
    hide BegunAre;
    BegunWith(st.log, st.started, e);
  }

  lemma {:induction false} CallBeginsOnce(sys: System, st: State, id: nat)
    requires WellFormed(sys, st) && BeganOnce(st)
    ensures BeganOnce(Call(sys, st, id).1)
    decreases Unstarted(sys, st), 0, Finish(Undefined)
  {
    hide BeganOnce;
    if id < |sys| && id !in st.started {
      var begun := Begin(sys, st, id);
      assert id in Unstarted(sys, st) && id !in Unstarted(sys, begun);
      BeginOnce(sys, st, id);
      RunBeginsOnce(sys, begun, id, sys[id].body);
      var (o, after) := Run(sys, begun, id, sys[id].body);
      OnceWith(after, End(sys, after, id, o), if o.Thrown? then Failed(id) else Ended(id));
    }
  }

  lemma {:induction false} RunBeginsOnce(sys: System, st: State, id: nat, p: Program)
    requires WellFormed(sys, st) && id in st.started && BeganOnce(st)
    ensures BeganOnce(Run(sys, st, id, p).1)
    decreases Unstarted(sys, st), 1, p
  {
    match p
    case Finish(_) =>
    case Throw =>
    case SetExports(v, next) =>
      RunBeginsOnce(sys, st.(exports := st.exports[id := v]), id, next);
    case Invoke(callee, onReturn, onThrow) =>
      CallBeginsOnce(sys, st, callee);
      var (o, after) := Call(sys, st, callee);
      var resumed := ComeBack(after, Some(id), callee, o);
      OnceWith(after, resumed, Resumed(Some(id), callee, o, callee in after.finished));
      assert Unstarted(sys, resumed) <= Unstarted(sys, st);
      RunBeginsOnce(sys, resumed, id, if o.Returned? then onReturn else onThrow);
  }

  /** However wrappers are called, from outside and by one another, and whatever throws, no
      body begins twice. */
  lemma {:induction false} RunsAtMostOnce(sys: System, st: State, ids: seq<nat>)
    requires WellFormed(sys, st) && BeganOnce(st)
    ensures BeganOnce(CallAll(sys, st, ids))
    decreases |ids|
  {
    hide BeganOnce;
    if ids != [] {
      CallBeginsOnce(sys, st, ids[0]);
      var (o, after) := Call(sys, st, ids[0]);
      OnceWith(after, ComeBack(after, None, ids[0], o), Resumed(None, ids[0], o, ids[0] in after.finished));
      RunsAtMostOnce(sys, ComeBack(after, None, ids[0], o), ids[1..]);
    }
  }
}
