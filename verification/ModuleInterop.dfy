/** Interop between module formats: `export * from` and the cached conversion of a CommonJS
    exports object to an ES module namespace, with bindings that stay live. */
module ModuleInterop {
  import opened Wrappers

  datatype Value = Value(id: nat, truthy: bool) | ExportsObject(source: nat)

  const DEFAULT := "default"
  const ES_MODULE := "__esModule"

  /** A module's exports: its own property names in order, and their current values. */
  datatype Source = Source(names: seq<string>, values: map<string, Value>, isObject: bool) {
    predicate EsModule() {
      ES_MODULE in values && (values[ES_MODULE].ExportsObject? || values[ES_MODULE].truthy)
    }
  }

  /** A property defined by the runtime: a fixed value, or a getter that reads `key` of a module. */
  datatype Binding = Fixed(value: Value) | Live(source: nat, key: string)

  type Bindings = map<string, Binding>

  /** Getters for the names that are not defined yet. */
  function AddMissing(target: Bindings, source: nat, names: seq<string>, exceptDefault: bool): Bindings {
    if names == [] then target
    else
      var before, key := AddMissing(target, source, names[..|names| - 1], exceptDefault), names[|names| - 1];
      if key in before || (exceptDefault && key == DEFAULT) then before else before[key := Live(source, key)]
  }

  lemma {:induction false} AddMissingMeans(target: Bindings, source: nat, names: seq<string>, exceptDefault: bool, key: string)
    ensures var after := AddMissing(target, source, names, exceptDefault);
            && (key in target ==> key in after && after[key] == target[key])
            && (key !in target ==>
                  && (key in after <==> key in names && !(exceptDefault && key == DEFAULT))
                  && (key in after ==> after[key] == Live(source, key)))
  {
    if names != [] {
      AddMissingMeans(target, source, names[..|names| - 1], exceptDefault, key);
      assert names == names[..|names| - 1] + [names[|names| - 1]];
    }
  }

  // ----- export * from

  /** A sequence of `__reExport` calls on one target. */
  function ReExportAll(target: Bindings, sources: map<nat, Source>, mods: seq<nat>): Bindings
    requires forall m :: m in mods ==> m in sources
  {
    if mods == [] then target
    else
      var last := mods[|mods| - 1];
      AddMissing(ReExportAll(target, sources, mods[..|mods| - 1]), last, sources[last].names, true)
  }

  /** The first of the modules that has the key. */
  function FirstWith(sources: map<nat, Source>, mods: seq<nat>, key: string): Option<nat>
    requires forall m :: m in mods ==> m in sources
    decreases |mods|
  {
    if mods == [] then None
    else if key in sources[mods[0]].names then Some(mods[0])
    else FirstWith(sources, mods[1..], key)
  }

  lemma {:induction false} FirstWithMore(sources: map<nat, Source>, mods: seq<nat>, last: nat, key: string)
    requires last in sources && forall m :: m in mods ==> m in sources
    ensures FirstWith(sources, mods + [last], key)
         == match FirstWith(sources, mods, key)
            case Some(m) => Some(m)
            case None => if key in sources[last].names then Some(last) else None
    decreases |mods|
  {
    if mods == [] {
      assert mods + [last] == [last];
    } else {
      assert (mods + [last])[1..] == mods[1..] + [last];
      FirstWithMore(sources, mods[1..], last, key);
    }
  }

  /** Own exports win, then the first module that has the name; `default` is never passed on.
      What is passed on is a live binding. */
  lemma {:induction false} ReExportFirstWins(target: Bindings, sources: map<nat, Source>, mods: seq<nat>, key: string)
    requires forall m :: m in mods ==> m in sources
    ensures var after := ReExportAll(target, sources, mods);
            if key in target then key in after && after[key] == target[key]
            else if key == DEFAULT then key !in after
            else match FirstWith(sources, mods, key)
                 case None => key !in after
                 case Some(m) => key in after && after[key] == Live(m, key)
    decreases |mods|
  {
    if mods != [] {
      var front, last := mods[..|mods| - 1], mods[|mods| - 1];
      assert mods == front + [last];
      ReExportFirstWins(target, sources, front, key);
      AddMissingMeans(ReExportAll(target, sources, front), last, sources[last].names, true, key);
      FirstWithMore(sources, front, last, key);
    }
  }

  // ----- CommonJS exports as an ES module

  /** The `default` of the namespace is the exports object itself. */
  predicate DefaultIsModule(source: Source, isNodeMode: bool) {
    isNodeMode || !source.EsModule()
  }

  /** The namespace computed from a source as it is now. */
  function Convert(id: nat, source: Source, isNodeMode: bool): Bindings {
    AddMissing(if DefaultIsModule(source, isNodeMode) then map[DEFAULT := Fixed(ExportsObject(id))] else map[],
               id, source.names, false)
  }

  /** The keys whose presence the namespace depends on. */
  function RelevantKeys(source: Source, isNodeMode: bool): set<string> {
    (set k | k in source.names) - if DefaultIsModule(source, isNodeMode) then {DEFAULT} else {}
  }

  lemma {:induction false} ConvertMeans(id: nat, source: Source, isNodeMode: bool, key: string)
    ensures var ns := Convert(id, source, isNodeMode);
            && (DefaultIsModule(source, isNodeMode) ==> DEFAULT in ns && ns[DEFAULT] == Fixed(ExportsObject(id)))
            && (key in RelevantKeys(source, isNodeMode) ==> key in ns && ns[key] == Live(id, key))
            && (key in ns ==> key in RelevantKeys(source, isNodeMode) || (key == DEFAULT && DefaultIsModule(source, isNodeMode)))
  {
    var start: Bindings := if DefaultIsModule(source, isNodeMode) then map[DEFAULT := Fixed(ExportsObject(id))] else map[];
    AddMissingMeans(start, id, source.names, false, key);
    AddMissingMeans(start, id, source.names, false, DEFAULT);
  }

  /** A namespace computed earlier is what would be computed now, exactly if the source still
      has the same names, and its `__esModule` flag still decides `default` the same way. */
  lemma {:induction false} StaleIff(id: nat, before: Source, now: Source, isNodeMode: bool)
    ensures Convert(id, before, isNodeMode) == Convert(id, now, isNodeMode)
       <==> DefaultIsModule(before, isNodeMode) == DefaultIsModule(now, isNodeMode)
            && RelevantKeys(before, isNodeMode) == RelevantKeys(now, isNodeMode)
  {
    hide Convert, RelevantKeys, DefaultIsModule;
    forall key
      ensures var ns := Convert(id, before, isNodeMode);
              && (DefaultIsModule(before, isNodeMode) ==> DEFAULT in ns && ns[DEFAULT] == Fixed(ExportsObject(id)))
              && (key in RelevantKeys(before, isNodeMode) ==> key in ns && ns[key] == Live(id, key))
              && (key in ns ==> key in RelevantKeys(before, isNodeMode) || (key == DEFAULT && DefaultIsModule(before, isNodeMode)))
      ensures var ns := Convert(id, now, isNodeMode);
              && (DefaultIsModule(now, isNodeMode) ==> DEFAULT in ns && ns[DEFAULT] == Fixed(ExportsObject(id)))
              && (key in RelevantKeys(now, isNodeMode) ==> key in ns && ns[key] == Live(id, key))
              && (key in ns ==> key in RelevantKeys(now, isNodeMode) || (key == DEFAULT && DefaultIsModule(now, isNodeMode)))
    {
      ConvertMeans(id, before, isNodeMode, key);
      ConvertMeans(id, now, isNodeMode, key);
    }
    DefaultNotRelevant(before, isNodeMode);
    DefaultNotRelevant(now, isNodeMode);
  }

  lemma {:induction false} DefaultNotRelevant(source: Source, isNodeMode: bool)
    ensures DefaultIsModule(source, isNodeMode) ==> DEFAULT !in RelevantKeys(source, isNodeMode)
  {
  }

  // ----- the caches, over any run

  /** A namespace object: the source it was made for, in which mode, what the source was then,
      and its properties. */
  datatype Namespace = Namespace(source: nat, isNodeMode: bool, madeFrom: Source, bindings: Bindings)

  /** Every module's exports, the namespaces made so far, and the cache of each mode. */
  datatype World = World(sources: map<nat, Source>, namespaces: seq<Namespace>, nodeCache: map<nat, nat>, esmCache: map<nat, nat>) {
    function Cache(isNodeMode: bool): map<nat, nat> {
      if isNodeMode then nodeCache else esmCache
    }
  }

  /** What can happen: a module writes or deletes one of its exports, or someone asks for the
      namespace of a module. */
  datatype Action = Write(id: nat, key: string, value: Value) | Delete(id: nat, key: string) | Ask(id: nat, isNodeMode: bool)

  function Without(names: seq<string>, key: string): seq<string> {
    if names == [] then []
    else
      var rest := Without(names[..|names| - 1], key);
      if names[|names| - 1] == key then rest else rest + [names[|names| - 1]]
  }

  /** `__toESM`: the world after the call, and the namespace returned. */
  function ToESM(w: World, id: nat, isNodeMode: bool): (World, nat)
    requires id in w.sources
  {
    var source, cache := w.sources[id], w.Cache(isNodeMode);
    if source.isObject && id in cache then (w, cache[id])
    else
      var n := |w.namespaces|;
      var made := w.(namespaces := w.namespaces + [Namespace(id, isNodeMode, source, Convert(id, source, isNodeMode))]);
      (if !source.isObject then made
       else if isNodeMode then made.(nodeCache := made.nodeCache[id := n])
       else made.(esmCache := made.esmCache[id := n]),
       n)
  }

  function Act(w: World, a: Action): World {
    match a
    case Write(id, key, value) =>
      if id !in w.sources then w
      else
        var s := w.sources[id];
        w.(sources := w.sources[id := s.(names := if key in s.names then s.names else s.names + [key],
                                         values := s.values[key := value])])
    case Delete(id, key) =>
      if id !in w.sources then w
      else
        var s := w.sources[id];
        w.(sources := w.sources[id := s.(names := Without(s.names, key), values := s.values - {key})])
    case Ask(id, isNodeMode) => if id in w.sources then ToESM(w, id, isNodeMode).0 else w
  }

  function Run(w: World, actions: seq<Action>): World
    decreases |actions|
  {
    if actions == [] then w else Run(Act(w, actions[0]), actions[1..])
  }

  /** A read of a namespace property, now. */
  function Read(w: World, n: nat, key: string): Option<Value>
    requires n < |w.namespaces|
  {
    var ns := w.namespaces[n];
    if key !in ns.bindings then None
    else
      match ns.bindings[key]
      case Fixed(v) => Some(v)
      case Live(s, k) => if s in w.sources && k in w.sources[s].values then Some(w.sources[s].values[k]) else None
  }

  /** The caches hold namespaces made for their module and mode, from what it was then. */
  ghost predicate CachesOk(w: World) {
    && (forall n :: 0 <= n < |w.namespaces| ==>
          w.namespaces[n].bindings == Convert(w.namespaces[n].source, w.namespaces[n].madeFrom, w.namespaces[n].isNodeMode))
    && (forall id :: id in w.nodeCache ==>
          var n := w.nodeCache[id]; n < |w.namespaces| && w.namespaces[n].source == id && w.namespaces[n].isNodeMode)
    && (forall id :: id in w.esmCache ==>
          var n := w.esmCache[id]; n < |w.namespaces| && w.namespaces[n].source == id && !w.namespaces[n].isNodeMode)
  }

  /** Namespaces never change, and no cache entry is replaced. */
  ghost predicate Extends(w: World, after: World) {
    && w.namespaces <= after.namespaces && w.sources.Keys <= after.sources.Keys
    && (forall id :: id in w.nodeCache ==> id in after.nodeCache && after.nodeCache[id] == w.nodeCache[id])
    && (forall id :: id in w.esmCache ==> id in after.esmCache && after.esmCache[id] == w.esmCache[id])
    && (forall id :: id in w.sources ==> after.sources[id].isObject == w.sources[id].isObject)
  }

  /** Only objects are cached. */
  ghost predicate Cacheable(w: World) {
    && (forall id :: id in w.nodeCache ==> id in w.sources && w.sources[id].isObject)
    && (forall id :: id in w.esmCache ==> id in w.sources && w.sources[id].isObject)
  }

  lemma {:induction false} NamespaceAdded(w: World, ns: Namespace)
    requires CachesOk(w) && Cacheable(w) && ns.bindings == Convert(ns.source, ns.madeFrom, ns.isNodeMode)
    ensures var after := w.(namespaces := w.namespaces + [ns]);
            CachesOk(after) && Cacheable(after) && Extends(w, after)
  {
    hide Convert;
  }

  lemma {:induction false} CacheEntryAdded(w: World, id: nat, n: nat)
    requires CachesOk(w) && Cacheable(w) && id in w.sources && w.sources[id].isObject
    requires n < |w.namespaces| && w.namespaces[n].source == id && id !in w.Cache(w.namespaces[n].isNodeMode)
    ensures var after := if w.namespaces[n].isNodeMode then w.(nodeCache := w.nodeCache[id := n]) else w.(esmCache := w.esmCache[id := n]);
            CachesOk(after) && Cacheable(after) && Extends(w, after)
  {
    hide Convert;
  }

  lemma {:induction false} AskExtends(w: World, id: nat, isNodeMode: bool)
    requires CachesOk(w) && Cacheable(w) && id in w.sources
    ensures var after := ToESM(w, id, isNodeMode).0;
            CachesOk(after) && Cacheable(after) && Extends(w, after)
  {
    var source := w.sources[id];
    var ns := Namespace(id, isNodeMode, source, Convert(id, source, isNodeMode));
    var made := w.(namespaces := w.namespaces + [ns]);
    hide Convert, CachesOk, Cacheable;
    NamespaceAdded(w, ns);
    if source.isObject && id !in w.Cache(isNodeMode) {
      CacheEntryAdded(made, id, |w.namespaces|);
    }
  }

  /** A change of the exports alone. */
  lemma {:induction false} SourcesExtend(w: World, after: World)
    requires CachesOk(w) && Cacheable(w)
    requires after == w.(sources := after.sources) && w.sources.Keys <= after.sources.Keys
    requires forall id :: id in w.sources ==> after.sources[id].isObject == w.sources[id].isObject
    ensures CachesOk(after) && Cacheable(after) && Extends(w, after)
  {
    hide Convert;
  }

  lemma {:induction false} RunExtends(w: World, actions: seq<Action>)
    requires CachesOk(w) && Cacheable(w)
    ensures CachesOk(Run(w, actions)) && Cacheable(Run(w, actions)) && Extends(w, Run(w, actions))
    decreases |actions|
  {
    hide ToESM, CachesOk, Cacheable, Without;
    SourcesExtend(w, w);
    if actions != [] {
      var next := Act(w, actions[0]);
      match actions[0] {
        case Ask(id, isNodeMode) => if id in w.sources { AskExtends(w, id, isNodeMode); }
        case _ => SourcesExtend(w, next);
      }
      RunExtends(next, actions[1..]);
    }
  }

  /** Asking again in the same mode for the namespace of an object gives the same one, whatever
      happened in between; it is what a fresh conversion would be exactly if the names and the
      `__esModule` flag that matter are as they were. */
  lemma {:induction false} CachedNamespace(w: World, id: nat, isNodeMode: bool, actions: seq<Action>)
    requires CachesOk(w) && Cacheable(w) && id in w.sources && w.sources[id].isObject && id !in w.Cache(isNodeMode)
    ensures var (first, n) := ToESM(w, id, isNodeMode);
            var later := Run(first, actions);
            && id in later.sources && ToESM(later, id, isNodeMode) == (later, n) && n < |later.namespaces|
            && var before, now := w.sources[id], later.sources[id];
               later.namespaces[n].bindings == Convert(id, now, isNodeMode)
               <==> DefaultIsModule(before, isNodeMode) == DefaultIsModule(now, isNodeMode)
                    && RelevantKeys(before, isNodeMode) == RelevantKeys(now, isNodeMode)
  {
    hide Convert, Run, RelevantKeys, DefaultIsModule, CachesOk, Cacheable;
    var (first, n) := ToESM(w, id, isNodeMode);
    AskExtends(w, id, isNodeMode);
    RunExtends(first, actions);
    var later := Run(first, actions);
    assert first.namespaces[n].bindings == Convert(id, w.sources[id], isNodeMode);
    assert later.namespaces[n] == first.namespaces[n];
    StaleIff(id, w.sources[id], later.sources[id], isNodeMode);
  }

  /** What a namespace reads as, whatever happens after it was made. Names stay live: each that
      the module had then reads as its value at the time of the read. `default` reads as the
      exports object in node mode, or if the module had no truthy `__esModule` then, else as the
      module's own. */
  lemma {:induction false} ReadsFollowWrites(w: World, id: nat, isNodeMode: bool, actions: seq<Action>, key: string)
    requires CachesOk(w) && Cacheable(w) && id in w.sources
    requires w.sources[id].isObject ==> id !in w.Cache(isNodeMode)
    ensures var (first, n) := ToESM(w, id, isNodeMode);
            var source, later := w.sources[id], Run(first, actions);
            var flagged := "__esModule" in source.values
                           && (source.values["__esModule"].ExportsObject? || source.values["__esModule"].truthy);
            && n < |later.namespaces| && id in later.sources
            && var now := later.sources[id].values;
               Read(later, n, key)
               == if key == "default" && (isNodeMode || !flagged) then Some(ExportsObject(id))
                  else if key in source.names && key in now then Some(now[key])
                  else None
  {
    hide Run, CachesOk, Cacheable;
    var (first, n) := ToESM(w, id, isNodeMode);
    AskExtends(w, id, isNodeMode);
    RunExtends(first, actions);
    ConvertMeans(id, w.sources[id], isNodeMode, key);
    hide Convert;
  }

  // ----- the loops of the source

  /** Defines a getter for each of the module's names that the target lacks. */
  method DefineGetters(target: Bindings, source: nat, names: seq<string>, exceptDefault: bool) returns (r: Bindings)
    ensures r == AddMissing(target, source, names, exceptDefault)
  {
    r := target;
    for i := 0 to |names|
      invariant r == AddMissing(target, source, names[..i], exceptDefault)
    {
      assert names[..i + 1][..i] == names[..i];
      var key := names[i];
      if key !in r && !(exceptDefault && key == DEFAULT) {
        r := r[key := Live(source, key)];
      }
    }
    assert names[..|names|] == names;
  }

  class Runtime {
    var sources: map<nat, Source>
    var namespaces: seq<Namespace>
    var nodeCache: map<nat, nat>
    var esmCache: map<nat, nat>

    function Current(): World
      reads this
    {
      World(sources, namespaces, nodeCache, esmCache)
    }

    /** The namespace of a module, by its number among those made. */
    method ConvertToESM(id: nat, isNodeMode: bool) returns (n: nat)
      requires id in sources
      modifies this
      ensures (Current(), n) == ToESM(old(Current()), id, isNodeMode)
    {
      var source := sources[id];
      if source.isObject {
        if isNodeMode && id in nodeCache {
          return nodeCache[id];
        }
        if !isNodeMode && id in esmCache {
          return esmCache[id];
        }
      }
      var target: Bindings := map[];
      if isNodeMode || !source.EsModule() {
        target := target[DEFAULT := Fixed(ExportsObject(id))];
      }
      target := DefineGetters(target, id, source.names, false);
      n := |namespaces|;
      namespaces := namespaces + [Namespace(id, isNodeMode, source, target)];
      if source.isObject {
        if isNodeMode {
          nodeCache := nodeCache[id := n];
        } else {
          esmCache := esmCache[id := n];
        }
      }
    }
  }

  /** `__reExport`, on the namespace and, for an entry point in CommonJS format, on
      `module.exports` too. */
  method ReExport(target: Bindings, source: nat, names: seq<string>, second: Option<Bindings>)
      returns (r: Bindings, s: Option<Bindings>)
    ensures r == AddMissing(target, source, names, true)
    ensures s == match second case None => None case Some(b) => Some(AddMissing(b, source, names, true))
  {
    r := DefineGetters(target, source, names, true);
    match second {
      case None =>
        s := None;
      case Some(b) =>
        var defined := DefineGetters(b, source, names, true);
        s := Some(defined);
    }
  }
}
