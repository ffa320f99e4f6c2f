/** What callers of the module wrappers can rely on: completed or failed dependencies on
    acyclic graphs, and on any graph later calls that repeat the first one. */
module ModuleCompletion {
  import opened ModuleWrappers
  import opened Wrappers

  // ----- acyclic graphs

  /** Every wrapper the body may call ranks below `r`. */
  predicate CallsBelow(p: Program, rank: seq<nat>, r: nat) {
    match p
    case Finish(_) => true
    case Throw => true
    case SetExports(_, next) => CallsBelow(next, rank, r)
    case Invoke(callee, onReturn, onThrow) =>
      callee < |rank| && rank[callee] < r && CallsBelow(onReturn, rank, r) && CallsBelow(onThrow, rank, r)
  }

  /** The body does not throw of itself, as long as no call of its throws. */
  predicate NeverThrows(p: Program) {
    match p
    case Finish(_) => true
    case Throw => false
    case SetExports(_, next) => NeverThrows(next)
    case Invoke(_, onReturn, _) => NeverThrows(onReturn)
  }

  /** The ranks witness that the wrappers do not call each other in a cycle. */
  predicate Acyclic(sys: System, rank: seq<nat>) {
    |rank| == |sys| && forall i :: 0 <= i < |sys| ==> CallsBelow(sys[i].body, rank, rank[i])
  }

  predicate NoneThrows(sys: System) {
    forall i :: 0 <= i < |sys| ==> NeverThrows(sys[i].body)
  }

  /** The wrapper's body has ended, one way or the other. */
  ghost predicate IsSettled(st: State, id: nat) {
    id in st.finished || Failed(id) in st.log
  }

  ghost predicate SettledBelow(sys: System, st: State, rank: seq<nat>, r: nat)
    requires WellFormed(sys, st) && |rank| == |sys|
  {
    forall i :: i in st.started && rank[i] < r ==> IsSettled(st, i)
  }

  /** Whenever a call came back with a value, the wrapper called was complete, or its body had
      thrown before. */
  ghost predicate NeverEarly(log: seq<Event>) {
    forall k :: 0 <= k < |log| && log[k].Resumed? && log[k].outcome.Returned? ==>
      log[k].complete || Failed(log[k].callee) in log[..k]
  }

  ghost predicate NoFailure(log: seq<Event>) {
    forall k :: 0 <= k < |log| ==> !log[k].Failed? && (log[k].Resumed? ==> log[k].outcome.Returned?)
  }

  /** From `st` to `after`, whatever has started has ended too. */
  ghost predicate Progressed(st: State, after: State) {
    && (forall i :: i in after.started && i !in st.started ==> IsSettled(after, i))
    && st.finished <= after.finished && st.log <= after.log && NeverEarly(after.log)
  }

  lemma {:induction false} StaysSettled(st: State, after: State, id: nat)
    requires IsSettled(st, id) && st.finished <= after.finished && st.log <= after.log
    ensures IsSettled(after, id)
  {
    if Failed(id) in st.log {
      var k :| 0 <= k < |st.log| && st.log[k] == Failed(id);
      assert after.log[k] == Failed(id);
    }
  }

  lemma {:induction false} ProgressThen(st: State, mid: State, after: State)
    requires Progressed(st, mid) && Progressed(mid, after)
    ensures Progressed(st, after)
  {
    hide NeverEarly, IsSettled;
    forall i | i in after.started && i !in st.started ensures IsSettled(after, i) {
      if i in mid.started {
        StaysSettled(mid, after, i);
      }
    }
  }

  /** What is below `r` or has ended meanwhile stays ended. */
  lemma {:induction false} BelowStays(sys: System, st: State, after: State, rank: seq<nat>, r: nat, limit: nat)
    requires WellFormed(sys, st) && WellFormed(sys, after) && |rank| == |sys|
    requires SettledBelow(sys, st, rank, limit) && r <= limit && st.finished <= after.finished && st.log <= after.log
    requires forall i :: i in after.started && i !in st.started && rank[i] < r ==> IsSettled(after, i)
    ensures SettledBelow(sys, after, rank, r)
  {
    hide IsSettled;
    forall i | i in after.started && rank[i] < r ensures IsSettled(after, i) {
      if i in st.started {
        StaysSettled(st, after, i);
      }
    }
  }

  lemma {:induction false} NeverEarlyWith(log: seq<Event>, e: Event)
    requires NeverEarly(log)
    requires e.Resumed? && e.outcome.Returned? ==> e.complete || Failed(e.callee) in log
    ensures NeverEarly(log + [e])
  {
    forall k | 0 <= k < |log| ensures (log + [e])[..k] == log[..k] {
    }
    assert (log + [e])[..|log|] == log;
  }

  /** The call that came back is recorded. */
  lemma {:induction false} ComeBackProgress(st: State, after: State, caller: Option<nat>, callee: nat, o: Outcome)
    requires Progressed(st, after) && (o.Returned? ==> IsSettled(after, callee))
    ensures Progressed(st, ComeBack(after, caller, callee, o))
  {
    hide NeverEarly;
    NeverEarlyWith(after.log, Resumed(caller, callee, o, callee in after.finished));
    var back := ComeBack(after, caller, callee, o);
    forall i | i in back.started && i !in st.started ensures IsSettled(back, i) {
      StaysSettled(after, back, i);
    }
  }

  lemma {:induction false} BeginNeverEarly(sys: System, st: State, id: nat)
    requires id < |sys| && NeverEarly(st.log)
    ensures NeverEarly(Begin(sys, st, id).log)
    ensures NoFailure(st.log) ==> NoFailure(Begin(sys, st, id).log)
  {
    NeverEarlyWith(st.log, if sys[id].kind == CommonJs then Began(id, Some(st.objects)) else Began(id, None));
  }

  lemma {:induction false} EndProgress(sys: System, st: State, begun: State, after: State, id: nat, o: Outcome)
    requires id < |sys| && begun.started == st.started + {id} && begun.finished == st.finished && st.log <= begun.log
    requires Progressed(begun, after)
    ensures Progressed(st, End(sys, after, id, o)) && IsSettled(End(sys, after, id, o), id)
  {
    hide NeverEarly;
    var e, ended := if o.Thrown? then Failed(id) else Ended(id), End(sys, after, id, o);
    NeverEarlyWith(after.log, e);
    assert ended.log[|after.log|] == e;
    forall i | i in ended.started && i !in st.started ensures IsSettled(ended, i) {
      if i != id {
        StaysSettled(after, ended, i);
      }
    }
  }

  lemma {:induction false} CallSettles(sys: System, rank: seq<nat>, st: State, id: nat)
    requires WellFormed(sys, st) && Acyclic(sys, rank) && NeverEarly(st.log)
    requires id < |sys| && SettledBelow(sys, st, rank, rank[id] + 1)
    ensures var (o, after) := Call(sys, st, id);
            && Progressed(st, after) && IsSettled(after, id)
            && (NoneThrows(sys) && NoFailure(st.log) ==> o.Returned? && NoFailure(after.log))
    decreases Unstarted(sys, st), 0, Finish(Undefined)
  {
    hide NeverEarly, CallsBelow, NeverThrows;
    if id in st.started {
      assert IsSettled(st, id);
    } else {
      var begun := Begin(sys, st, id);
      assert id in Unstarted(sys, st) && id !in Unstarted(sys, begun);
      BeginNeverEarly(sys, st, id);
      BelowStays(sys, st, begun, rank, rank[id], rank[id] + 1);
      RunSettles(sys, rank, begun, id, sys[id].body);
      var (o, after) := Run(sys, begun, id, sys[id].body);
      EndProgress(sys, st, begun, after, id, o);
    }
  }

  /** While the body of `id` runs, everything below it has ended. */
  lemma {:induction false} RunSettles(sys: System, rank: seq<nat>, st: State, id: nat, p: Program)
    requires WellFormed(sys, st) && Acyclic(sys, rank) && NeverEarly(st.log)
    requires id in st.started && SettledBelow(sys, st, rank, rank[id]) && CallsBelow(p, rank, rank[id])
    ensures var (o, after) := Run(sys, st, id, p);
            && Progressed(st, after)
            && (NoneThrows(sys) && NeverThrows(p) && NoFailure(st.log) ==> o.Returned? && NoFailure(after.log))
    decreases Unstarted(sys, st), 1, p
  {
    hide NeverEarly, NoneThrows;
    match p
    case Finish(_) =>
    case Throw =>
    case SetExports(v, next) =>
      var changed := st.(exports := st.exports[id := v]);
      RunSettles(sys, rank, changed, id, next);
    case Invoke(callee, onReturn, onThrow) =>
      CallSettles(sys, rank, st, callee);
      var (o, after) := Call(sys, st, callee);
      var resumed := ComeBack(after, Some(id), callee, o);
      ComeBackProgress(st, after, Some(id), callee, o);
      BelowStays(sys, st, resumed, rank, rank[id], rank[id]);
      assert Unstarted(sys, resumed) <= Unstarted(sys, st);
      var rest := if o.Returned? then onReturn else onThrow;
      RunSettles(sys, rank, resumed, id, rest);
      ProgressThen(st, resumed, Run(sys, resumed, id, rest).1);
  }

  /** On an acyclic graph, whatever throws, a call that comes back with a value finds the
      wrapper complete, or its body had thrown before, and everything started has ended in the
      end. If no body throws, no call does, and every wrapper is complete when it is returned. */
  lemma {:induction false} DependenciesFirst(sys: System, rank: seq<nat>, st: State, ids: seq<nat>)
    requires WellFormed(sys, st) && Acyclic(sys, rank) && NeverEarly(st.log)
    requires forall i :: i in st.started ==> IsSettled(st, i)
    requires forall k :: 0 <= k < |ids| ==> ids[k] < |sys|
    ensures var after := CallAll(sys, st, ids);
            && NeverEarly(after.log)
            && (forall i :: i in after.started ==> IsSettled(after, i))
            && (NoneThrows(sys) && NoFailure(st.log) ==>
                  && after.started <= after.finished
                  && forall k :: 0 <= k < |after.log| && after.log[k].Resumed? ==>
                       after.log[k].outcome.Returned? && after.log[k].complete)
    decreases |ids|
  {
    if ids == [] {
      if NoFailure(st.log) {
        AllComplete(st);
      }
    } else {
      hide NeverEarly, IsSettled, NoFailure, Acyclic, NoneThrows;
      CallSettles(sys, rank, st, ids[0]);
      var (o, after) := Call(sys, st, ids[0]);
      ComeBackProgress(st, after, None, ids[0], o);
      var back := ComeBack(after, None, ids[0], o);
      forall i | i in back.started ensures IsSettled(back, i) {
        if i in st.started {
          StaysSettled(st, back, i);
        }
      }
      NoFailureWith(after, None, ids[0], o);
      DependenciesFirst(sys, rank, back, ids[1..]);
    }
  }

  lemma {:induction false} NoFailureWith(after: State, caller: Option<nat>, callee: nat, o: Outcome)
    ensures NoFailure(after.log) && o.Returned? ==> NoFailure(ComeBack(after, caller, callee, o).log)
  {
  }

  lemma {:induction false} AllComplete(st: State)
    requires NeverEarly(st.log) && NoFailure(st.log) && forall i :: i in st.started ==> IsSettled(st, i)
    ensures st.started <= st.finished
    ensures forall k :: 0 <= k < |st.log| && st.log[k].Resumed? ==> st.log[k].outcome.Returned? && st.log[k].complete
  {
    forall id: nat ensures Failed(id) !in st.log {
    }
    forall k, id: nat | 0 <= k < |st.log| ensures Failed(id) !in st.log[..k] {
    }
  }

  // ----- later calls, on any graph

  /** What the callers of a wrapper are answered from, and whether its body has ended. */
  datatype Answer = Answer(res: Option<Value>, exports: Option<Value>, finished: bool, failed: bool)

  ghost function AnswerOf(st: State, j: nat): Answer {
    Answer(if j in st.res then Some(st.res[j]) else None, if j in st.exports then Some(st.exports[j]) else None,
           j in st.finished, Failed(j) in st.log)
  }

  lemma {:induction false} CallKeeps(sys: System, st: State, id: nat, j: nat)
    requires WellFormed(sys, st) && j in st.started
    ensures AnswerOf(Call(sys, st, id).1, j) == AnswerOf(st, j)
    decreases Unstarted(sys, st), 0, Finish(Undefined)
  {
    if id < |sys| && id !in st.started {
      var begun := Begin(sys, st, id);
      assert id in Unstarted(sys, st) && id !in Unstarted(sys, begun);
      assert AnswerOf(begun, j) == AnswerOf(st, j);
      RunKeeps(sys, begun, id, sys[id].body, j);
      var (o, after) := Run(sys, begun, id, sys[id].body);
      assert AnswerOf(End(sys, after, id, o), j) == AnswerOf(after, j);
    }
  }

  /** A body assigns its own exports alone. */
  lemma {:induction false} RunKeeps(sys: System, st: State, id: nat, p: Program, j: nat)
    requires WellFormed(sys, st) && id in st.started && j in st.started
    ensures var answer := AnswerOf(Run(sys, st, id, p).1, j);
            AnswerOf(st, j) == if id == j then answer.(exports := AnswerOf(st, j).exports) else answer
    decreases Unstarted(sys, st), 1, p
  {
    match p
    case Finish(_) =>
    case Throw =>
    case SetExports(v, next) =>
      RunKeeps(sys, st.(exports := st.exports[id := v]), id, next, j);
    case Invoke(callee, onReturn, onThrow) =>
      CallKeeps(sys, st, callee, j);
      var (o, after) := Call(sys, st, callee);
      var resumed := ComeBack(after, Some(id), callee, o);
      assert Unstarted(sys, resumed) <= Unstarted(sys, st);
      RunKeeps(sys, resumed, id, if o.Returned? then onReturn else onThrow, j);
  }

  lemma {:induction false} CallsKeep(sys: System, st: State, ids: seq<nat>, j: nat)
    requires WellFormed(sys, st) && j in st.started
    ensures AnswerOf(CallAll(sys, st, ids), j) == AnswerOf(st, j)
    decreases |ids|
  {
    if ids != [] {
      CallKeeps(sys, st, ids[0], j);
      var (o, after) := Call(sys, st, ids[0]);
      CallsKeep(sys, ComeBack(after, None, ids[0], o), ids[1..], j);
    }
  }

  /** Whatever is called in between, a later call of a wrapper of either kind changes nothing and
      gives what its first call gave if and only if that one returned. After a body that threw,
      `__esm` gives undefined and `__commonJS` the exports as the body left them. */
  lemma {:induction false} RepeatsIffReturned(sys: System, st: State, id: nat, ids: seq<nat>)
    requires WellFormed(sys, st) && id < |sys|
    ensures var (first, after) := Call(sys, st, id);
            var later := CallAll(sys, after, ids);
            var (again, end) := Call(sys, later, id);
            && end == later && (again == first <==> first.Returned?)
            && (first.Thrown? ==> again == Returned(if sys[id].kind == Esm then Undefined else after.exports[id]))
  {
    var (first, after) := Call(sys, st, id);
    CallsKeep(sys, after, ids, id);
    if id !in st.started {
      RunKeeps(sys, Begin(sys, st, id), id, sys[id].body, id);
    }
  }
}
