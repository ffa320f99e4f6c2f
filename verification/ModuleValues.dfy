/** What the module wrappers give their callers: the values that the bodies compute, followed
    through their programs along the calls that the log shows. */
module ModuleValues {
  import opened ModuleWrappers
  import opened Wrappers

  // ----- what the log and the programs tell

  /** How the calls made by the body of `id` have come back so far. */
  function Heard(log: seq<Event>, id: nat): seq<Outcome> {
    if log == [] then []
    else
      var e := log[|log| - 1];
      var before := Heard(log[..|log| - 1], id);
      if e.Resumed? && e.caller == Some(id) then before + [e.outcome] else before
  }

  /** The object allocated when the body of `id` began, if one was. */
  function Origin(log: seq<Event>, id: nat): Value {
    if log == [] then Undefined
    else
      var e := log[|log| - 1];
      if e.Began? && e.id == id then (match e.made case Some(o) => Object(o) case None => Undefined)
      else Origin(log[..|log| - 1], id)
  }

  ghost predicate HasBegun(log: seq<Event>, id: nat) {
    exists k :: 0 <= k < |log| && log[k].Began? && log[k].id == id
  }

  /** A point in a body: what is left of it, and what `module.exports` is there. */
  datatype Point = Point(rest: Program, exports: Value)

  /** Where a body is whose calls have come back as heard: at its end, or waiting for a call. */
  function Reached(p: Program, heard: seq<Outcome>, exports: Value): Point {
    match p
    case SetExports(v, next) => Reached(next, heard, v)
    case Invoke(_, onReturn, onThrow) =>
      if heard == [] then Point(p, exports)
      else Reached(if heard[0].Returned? then onReturn else onThrow, heard[1..], exports)
    case _ => Point(p, exports)
  }

  function PointOf(sys: System, log: seq<Event>, id: nat): Point
    requires id < |sys|
  {
    Reached(sys[id].body, Heard(log, id), Origin(log, id))
  }

  /** What a call of wrapper `id` gives at that point: what `module.exports` is, or what the
      body has returned. */
  function Given(w: Wrapper, at: Point): Value {
    match w.kind
    case CommonJs => at.exports
    case Esm => if at.rest.Finish? then at.rest.value else Undefined
  }

  /** As far as wrapper `j` is concerned, the event is what the programs demand after the log
      `before`. */
  ghost predicate Tells(sys: System, before: seq<Event>, e: Event, j: nat)
    requires j < |sys|
  {
    var at := PointOf(sys, before, j);
    match e
    case Began(id, made) => id == j ==> !HasBegun(before, j) && (made.Some? <==> sys[j].kind == CommonJs)
    case Ended(id) => id == j ==> HasBegun(before, j) && at.rest.Finish?
    case Failed(id) => id == j ==> HasBegun(before, j) && at.rest.Throw?
    case Resumed(caller, callee, outcome, complete) =>
      && (caller == Some(j) ==> at.rest.Invoke? && at.rest.callee == callee)
      && (caller == None && HasBegun(before, j) ==> !at.rest.Invoke?)
      && (callee >= |sys| ==> outcome.Thrown?)  // an unresolved name
      && (callee == j ==>
            && HasBegun(before, j) && (complete <==> at.rest.Finish?)
            && (if outcome.Returned? then outcome.value == Given(sys[j], at) else at.rest.Throw?))
  }

  ghost predicate AllTell(sys: System, log: seq<Event>, j: nat)
    requires j < |sys|
  {
    forall k :: 0 <= k < |log| ==> Tells(sys, log[..k], log[k], j)
  }

  // ----- one more event

  lemma {:induction false} OneMoreEvent(sys: System, log: seq<Event>, e: Event, j: nat)
    requires j < |sys|
    ensures Heard(log + [e], j) == if e.Resumed? && e.caller == Some(j) then Heard(log, j) + [e.outcome] else Heard(log, j)
    ensures HasBegun(log + [e], j) <==> HasBegun(log, j) || (e.Began? && e.id == j)
    ensures !(e.Began? && e.id == j) ==> Origin(log + [e], j) == Origin(log, j)
    ensures AllTell(sys, log, j) && Tells(sys, log, e, j) ==> AllTell(sys, log + [e], j)
  {
    hide Tells;
    var all := log + [e];
    assert all[|log|] == e && all[..|log|] == log;
    if k :| 0 <= k < |log| && log[k].Began? && log[k].id == j {
      assert all[k] == log[k];
    }
    forall k | 0 <= k < |log| ensures all[k] == log[k] && all[..k] == log[..k] {
    }
  }

  /** A body that hears one more outcome goes on from where it waits. */
  lemma {:induction false} HearsMore(p: Program, heard: seq<Outcome>, exports: Value, o: Outcome)
    requires Reached(p, heard, exports).rest.Invoke?
    ensures var at := Reached(p, heard, exports);
            Reached(p, heard + [o], exports) == Reached(if o.Returned? then at.rest.onReturn else at.rest.onThrow, [], at.exports)
  {
    match p
    case SetExports(v, next) => HearsMore(next, heard, v, o);
    case Invoke(_, onReturn, onThrow) =>
      if heard == [] {
        assert (heard + [o])[1..] == [];
      } else {
        assert (heard + [o])[1..] == heard[1..] + [o];
        HearsMore(if heard[0].Returned? then onReturn else onThrow, heard[1..], exports, o);
      }
    case _ =>
  }

  // ----- the state agrees with the log

  function ExportsNow(st: State, j: nat): Value {
    if j in st.exports then st.exports[j] else Undefined
  }

  /** The body of `j` is not running, or waits for a call. */
  ghost predicate InStep(sys: System, st: State, j: nat)
    requires j < |sys|
  {
    && AllTell(sys, st.log, j)
    && (j in st.started <==> HasBegun(st.log, j))
    && if j in st.started then
         var at := PointOf(sys, st.log, j);
         && at.exports == ExportsNow(st, j)
         && (j in st.finished <==> at.rest.Finish?)
         && (j in st.res <==> at.rest.Finish? && sys[j].kind == Esm) && (j in st.res ==> st.res[j] == at.rest.value)
       else Heard(st.log, j) == [] && j !in st.exports && j !in st.res && j !in st.finished
  }

  /** The body of `j` runs, and `p` is left of it. */
  ghost predicate Running(sys: System, st: State, j: nat, p: Program)
    requires j < |sys|
  {
    && AllTell(sys, st.log, j)
    && j in st.started && HasBegun(st.log, j) && j !in st.finished && j !in st.res
    && PointOf(sys, st.log, j) == Reached(p, [], ExportsNow(st, j))
  }

  /** The body of `j` waits for a call. */
  ghost predicate Waits(sys: System, st: State, j: nat)
    requires j < |sys|
  {
    j in st.started && PointOf(sys, st.log, j).rest.Invoke?
  }

  /** Another wrapper does something: the point reached in `j` stays, and so does all else of it. */
  lemma {:induction false} OthersStep(sys: System, st: State, after: State, e: Event, j: nat)
    requires j < |sys| && InStep(sys, st, j) && Tells(sys, st.log, e, j) && after.log == st.log + [e]
    requires !(e.Began? && e.id == j) && !(e.Resumed? && e.caller == Some(j))
    requires (j in after.started <==> j in st.started) && (j in after.finished <==> j in st.finished)
    requires ExportsNow(after, j) == ExportsNow(st, j) && (j in after.exports <==> j in st.exports)
    requires (j in after.res <==> j in st.res) && (j in st.res ==> after.res[j] == st.res[j])
    ensures InStep(sys, after, j) && PointOf(sys, after.log, j) == PointOf(sys, st.log, j)
  {
    hide Tells, AllTell, HasBegun, Heard, Origin, Reached;
    OneMoreEvent(sys, st.log, e, j);
  }

  lemma {:induction false} BeginsRunning(sys: System, st: State, j: nat)
    requires WellFormed(sys, st) && j < |sys| && j !in st.started && InStep(sys, st, j)
    ensures Running(sys, Begin(sys, st, j), j, sys[j].body)
  {
    hide AllTell, HasBegun, Heard, Reached;
    var begun := Begin(sys, st, j);
    OneMoreEvent(sys, st.log, begun.log[|st.log|], j);
  }

  lemma {:induction false} EndsInStep(sys: System, st: State, j: nat, o: Outcome)
    requires WellFormed(sys, st) && j < |sys|
    requires Running(sys, st, j, match o case Returned(v) => Finish(v) case Thrown => Throw)
    ensures var ended := End(sys, st, j, o);
            && InStep(sys, ended, j) && !Waits(sys, ended, j)
            && var at := PointOf(sys, ended.log, j);
               if o.Returned? then at.rest == Finish(o.value) && Again(sys, ended, j) == Given(sys[j], at) else at.rest == Throw
  {
    hide AllTell, HasBegun, Heard, Origin;
    OneMoreEvent(sys, st.log, End(sys, st, j, o).log[|st.log|], j);
  }

  // ----- all calls

  /** What a call of `id` gives, by the log after it. */
  ghost predicate GivesRight(sys: System, after: State, o: Outcome, j: nat)
    requires j < |sys|
  {
    var at := PointOf(sys, after.log, j);
    j in after.started && if o.Returned? then o.value == Given(sys[j], at) else at.rest.Throw?
  }

  lemma {:induction false} CallTells(sys: System, st: State, id: nat, j: nat)
    requires WellFormed(sys, st) && j < |sys| && InStep(sys, st, j)
    ensures var (o, after) := Call(sys, st, id);
            && InStep(sys, after, j) && (Waits(sys, after, j) ==> Waits(sys, st, j))
            && (j in st.started ==> PointOf(sys, after.log, j) == PointOf(sys, st.log, j))
            && (id == j ==> GivesRight(sys, after, o, j))
    decreases Unstarted(sys, st), 0, Finish(Undefined)
  {
    hide AllTell, HasBegun, PointOf;
    if id < |sys| && id !in st.started {
      var begun := Begin(sys, st, id);
      assert id in Unstarted(sys, st) && id !in Unstarted(sys, begun);
      if id == j {
        BeginsRunning(sys, st, j);
      } else {
        OthersStep(sys, st, begun, begun.log[|st.log|], j);
      }
      RunTells(sys, begun, id, sys[id].body, j);
      var (o, after) := Run(sys, begun, id, sys[id].body);
      var ended := End(sys, after, id, o);
      if id == j {
        EndsInStep(sys, after, j, o);
      } else {
        OthersStep(sys, after, ended, ended.log[|after.log|], j);
      }
    }
  }

  lemma {:induction false} RunTells(sys: System, st: State, id: nat, p: Program, j: nat)
    requires WellFormed(sys, st) && id in st.started && j < |sys|
    requires if id == j then Running(sys, st, j, p) else InStep(sys, st, j)
    ensures var (o, after) := Run(sys, st, id, p);
            if id == j then Running(sys, after, j, match o case Returned(v) => Finish(v) case Thrown => Throw)
            else
              && InStep(sys, after, j) && (Waits(sys, after, j) ==> Waits(sys, st, j))
              && (j in st.started ==> PointOf(sys, after.log, j) == PointOf(sys, st.log, j))
    decreases Unstarted(sys, st), 1, p
  {
    hide AllTell, HasBegun, Heard, Origin;
    match p
    case Finish(_) =>
    case Throw =>
    case SetExports(v, next) =>
      RunTells(sys, st.(exports := st.exports[id := v]), id, next, j);
    case Invoke(callee, onReturn, onThrow) =>
      CallTells(sys, st, callee, j);
      var (o, after) := Call(sys, st, callee);
      var resumed := ComeBack(after, Some(id), callee, o);
      assert Unstarted(sys, resumed) <= Unstarted(sys, st);
      var rest := if o.Returned? then onReturn else onThrow;
      if id == j {
        GoesOn(sys, after, j, p, o);
      } else {
        OthersStep(sys, after, resumed, resumed.log[|after.log|], j);
      }
      RunTells(sys, resumed, id, rest, j);
  }

  /** The body of `j` goes on after the call it was waiting for. */
  lemma {:induction false} GoesOn(sys: System, st: State, j: nat, p: Program, o: Outcome)
    requires j < |sys| && p.Invoke? && InStep(sys, st, j) && j in st.started
    requires PointOf(sys, st.log, j) == Point(p, ExportsNow(st, j))
    requires (p.callee == j ==> GivesRight(sys, st, o, j)) && (p.callee >= |sys| ==> o.Thrown?)
    ensures Running(sys, ComeBack(st, Some(j), p.callee, o), j, if o.Returned? then p.onReturn else p.onThrow)
  {
    hide AllTell, HasBegun, Heard, Origin;
    var e := Resumed(Some(j), p.callee, o, p.callee in st.finished);
    OneMoreEvent(sys, st.log, e, j);
    HearsMore(sys[j].body, Heard(st.log, j), Origin(st.log, j), o);
  }

  /** However wrappers are called, in cycles too, and whatever throws: of every wrapper, the log
      is what the programs demand. */
  lemma {:induction false} CallsTell(sys: System, st: State, ids: seq<nat>, j: nat)
    requires WellFormed(sys, st) && j < |sys| && InStep(sys, st, j) && !Waits(sys, st, j)
    ensures var after := CallAll(sys, st, ids);
            InStep(sys, after, j) && !Waits(sys, after, j)
    decreases |ids|
  {
    if ids != [] {
      hide AllTell, HasBegun, PointOf;
      CallTells(sys, st, ids[0], j);
      var (o, after) := Call(sys, st, ids[0]);
      OthersStep(sys, after, ComeBack(after, None, ids[0], o), Resumed(None, ids[0], o, ids[0] in after.finished), j);
      CallsTell(sys, ComeBack(after, None, ids[0], o), ids[1..], j);
    }
  }

  /** From the start on, so every call of a `__commonJS` wrapper gives the last value its body
      has assigned to `module.exports` by then, or else the object allocated for it, and every
      call of an `__esm` wrapper the value its body has returned, or undefined. */
  lemma {:induction false} ValuesOfPrograms(sys: System, ids: seq<nat>, j: nat)
    requires j < |sys|
    ensures AllTell(sys, CallAll(sys, INITIAL, ids).log, j)
  {
    CallsTell(sys, INITIAL, ids, j);
  }

  // ----- one value once the body has ended

  /** A body that has ended stays where it is. */
  lemma {:induction false} EndedStays(sys: System, log: seq<Event>, j: nat, k: nat, l: nat)
    requires j < |sys| && AllTell(sys, log, j) && k <= l <= |log|
    requires HasBegun(log[..k], j) && !PointOf(sys, log[..k], j).rest.Invoke?
    ensures HasBegun(log[..l], j) && PointOf(sys, log[..l], j) == PointOf(sys, log[..k], j)
    decreases l
  {
    hide HasBegun, Heard, Origin, Reached;
    if k < l {
      EndedStays(sys, log, j, k, l - 1);
      assert log[..l] == log[..l - 1] + [log[l - 1]] && Tells(sys, log[..l - 1], log[l - 1], j);
      OneMoreEvent(sys, log[..l - 1], log[l - 1], j);
    }
  }

  /** A call of `j` that came back with a value, its body having ended, or thrown, by then. */
  ghost predicate AnswersEnded(log: seq<Event>, k: nat, j: nat) {
    && k < |log| && log[k].Resumed? && log[k].callee == j && log[k].outcome.Returned?
    && (log[k].complete || Failed(j) in log[..k])
  }

  lemma {:induction false} HadEnded(sys: System, log: seq<Event>, k: nat, j: nat)
    requires j < |sys| && AllTell(sys, log, j) && AnswersEnded(log, k, j)
    ensures HasBegun(log[..k], j) && !PointOf(sys, log[..k], j).rest.Invoke?
    ensures log[k].outcome.value == Given(sys[j], PointOf(sys, log[..k], j))
  {
    hide HasBegun, PointOf;
    assert Tells(sys, log[..k], log[k], j);
    if !log[k].complete {
      var m :| 0 <= m < k && log[..k][m] == Failed(j);
      assert log[m] == Failed(j) && Tells(sys, log[..m], log[m], j);
      EndedStays(sys, log, j, m, k);
    }
  }

  /** All calls of a wrapper, in other bodies and outside, that come back after its body has ended
      or thrown come back with one and the same value. */
  lemma {:induction false} SameValueOnceEnded(sys: System, log: seq<Event>, j: nat, k: nat, l: nat)
    requires j < |sys| && AllTell(sys, log, j) && k <= l && AnswersEnded(log, k, j) && AnswersEnded(log, l, j)
    ensures log[k].outcome == log[l].outcome
  {
    hide AllTell, HasBegun, PointOf;
    HadEnded(sys, log, k, j);
    HadEnded(sys, log, l, j);
    EndedStays(sys, log, j, k, l);
  }

  // ----- one object for a module that keeps its exports

  /** The body leaves `module.exports` alone. */
  predicate KeepsExports(p: Program) {
    match p
    case Finish(_) => true
    case Throw => true
    case SetExports(_, _) => false
    case Invoke(_, onReturn, onThrow) => KeepsExports(onReturn) && KeepsExports(onThrow)
  }

  lemma {:induction false} KeptExports(p: Program, heard: seq<Outcome>, exports: Value)
    requires KeepsExports(p)
    ensures Reached(p, heard, exports).exports == exports
  {
    if p.Invoke? && heard != [] {
      KeptExports(if heard[0].Returned? then p.onReturn else p.onThrow, heard[1..], exports);
    }
  }

  /** Whoever calls wrapper `j` gets object `o`, made at the one beginning of its body, and no
      other body was given that object. */
  ghost predicate SameObject(log: seq<Event>, j: nat, o: nat) {
    && (exists b :: 0 <= b < |log| && log[b] == Began(j, Some(o)) &&
          forall k :: 0 <= k < |log| && log[k].Began? && (log[k].id == j || log[k].made == Some(o)) ==> k == b)
    && forall k :: 0 <= k < |log| && log[k].Resumed? && log[k].callee == j && log[k].outcome.Returned? ==>
         log[k].outcome.value == Object(o)
  }

  lemma {:induction false} OriginStays(sys: System, log: seq<Event>, j: nat, b: nat, l: nat)
    requires j < |sys| && AllTell(sys, log, j) && b < l <= |log| && log[b].Began? && log[b].id == j && log[b].made.Some?
    ensures Origin(log[..l], j) == Object(log[b].made.value) && HasBegun(log[..l], j)
    decreases l
  {
    var before, e := log[..l - 1], log[l - 1];
    assert log[..l] == before + [e] && log[..l][b] == log[b];
    if b < l - 1 {
      OriginStays(sys, log, j, b, l - 1);
      assert Tells(sys, before, e, j);
    }
  }

  /** A CommonJS module that does not replace its exports is one object, allocated when its
      body began, to every caller: in a cycle, later, and after its body threw. */
  lemma {:induction false} SameModuleForAll(sys: System, ids: seq<nat>, j: nat)
    requires j < |sys| && sys[j].kind == CommonJs && KeepsExports(sys[j].body)
    ensures var after := CallAll(sys, INITIAL, ids);
            j in after.started ==> exists o: nat :: SameObject(after.log, j, o)
  {
    hide CallAll, Call, Run;
    RunsAtMostOnce(sys, INITIAL, ids);
    ValuesOfPrograms(sys, ids, j);
    var after := CallAll(sys, INITIAL, ids);
    var log := after.log;
    if j in after.started {
      var b :| 0 <= b < |log| && log[b].Began? && log[b].id == j;
      assert Tells(sys, log[..b], log[b], j);
      var o := log[b].made.value;
      forall k | 0 <= k < |log| && log[k].Resumed? && log[k].callee == j && log[k].outcome.Returned?
        ensures log[k].outcome.value == Object(o)
      {
        assert Tells(sys, log[..k], log[k], j);
        BeganBefore(log, k, j, b);
        OriginStays(sys, log, j, b, k);
        KeptExports(sys[j].body, Heard(log[..k], j), Object(o));
      }
      assert SameObject(log, j, o);
    }
  }

  lemma {:induction false} BeganBefore(log: seq<Event>, k: nat, j: nat, b: nat)
    requires NoneTwice(log) && b < |log| && log[b].Began? && log[b].id == j && k <= |log| && HasBegun(log[..k], j)
    ensures b < k
  {
    var m :| 0 <= m < k && log[..k][m].Began? && log[..k][m].id == j;
    assert log[m] == log[..k][m];
  }
}
