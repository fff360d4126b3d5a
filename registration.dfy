/** Validation and registration (`load` and `register`) and the cache policy
    of `getModulesConfig`, shared by both revisions of the loader. The only
    difference between them here is the record handed to `setModule`: the
    refactored revision strips `urlManagerRules` from every child, the
    original passes the children through as they are. */
module Registration {
  import opened Basics
  import opened OrderedMaps
  import opened Config
  import opened Host

  /** Which of the two revisions of the loader is meant. */
  datatype Revision = Original | Refactored

  // ---------------------------------------------------------------------
  // The module record

  /** The `array_map` closure of the refactored `register`: every child
      loses its `urlManagerRules`. */
  function StripRules(children: ModuleMap): (r: ModuleMap)
    ensures |r| == |children|
    ensures forall i :: 0 <= i < |r| ==>
      r[i].0 == children[i].0 && r[i].1 == children[i].1.(urlManagerRules := None)
    ensures Keys(r) == Keys(children)
  {
    if children == [] then []
    else [(children[0].0, children[0].1.(urlManagerRules := None))] + StripRules(children[1..])
  }

  /** A looked-up child with its rules removed. */
  function StripOne(c: Option<Descriptor>): Option<Descriptor>
  {
    match c
    case None => None
    case Some(d) => Some(d.(urlManagerRules := None))
  }

  /** Stripping commutes with lookup: each child is found under its key,
      with its rules removed. */
  lemma {:induction false} StripRulesLookup(children: ModuleMap, k: string)
    ensures Lookup(StripRules(children), k) == StripOne(Lookup(children, k))
  {
    if children != [] {
      StripRulesLookup(children[1..], k);
    }
  }

  /** Children that declare no rules pass through unchanged. */
  lemma {:induction false} StripRulesWithoutRules(children: ModuleMap)
    requires forall i :: 0 <= i < |children| ==> children[i].1.urlManagerRules.None?
    ensures StripRules(children) == children
  {
    if children != [] {
      StripRulesWithoutRules(children[1..]);
    }
  }

  /** The record `register` hands to `setModule`: the class and the
      children, `[]` when there are none. */
  function RecordOf(rev: Revision, d: Descriptor): (r: ModuleRecord)
    requires d.cls.Some?
    ensures r.cls == d.cls.value
    ensures rev.Original? ==> r.modules == ChildrenOf(d)
    ensures |r.modules| == |ChildrenOf(d)|
  {
    ModuleRecord(d.cls.value, if rev.Refactored? then StripRules(ChildrenOf(d)) else ChildrenOf(d))
  }

  /** The record contains exactly the class and the descriptor's children
      (none when `modules` is not set). The original revision passes the
      children through unchanged; the refactored one keeps their keys and
      order and everything else about them, but none keeps its URL rules. */
  lemma RecordContents(rev: Revision, d: Descriptor)
    requires d.cls.Some?
    ensures RecordOf(rev, d).cls == d.cls.value
    ensures d.modules.None? ==> RecordOf(rev, d).modules == []
    ensures rev.Original? ==> RecordOf(rev, d).modules == ChildrenOf(d)
    ensures rev.Refactored? ==>
      && Keys(RecordOf(rev, d).modules) == Keys(ChildrenOf(d))
      && (forall i :: 0 <= i < |RecordOf(rev, d).modules| ==> RecordOf(rev, d).modules[i].1.urlManagerRules.None?)
      && (forall k :: Lookup(RecordOf(rev, d).modules, k) == StripOne(Lookup(ChildrenOf(d), k)))
  {
    if rev.Refactored? {
      forall k ensures Lookup(RecordOf(rev, d).modules, k) == StripOne(Lookup(ChildrenOf(d), k)) {
        StripRulesLookup(ChildrenOf(d), k);
      }
    }
  }

  // ---------------------------------------------------------------------
  // Registration (`register`)

  /** The calls `register(basePath, d)` makes, in order. */
  function RegisterEffects(rev: Revision, basePath: string, d: Descriptor): seq<Effect>
    requires HasIdAndClass(d)
  {
    [AliasSet(AliasName(d), basePath)]
    + RuleEffects(d)
    + [ModuleSet(d.id.value, RecordOf(rev, d))]
    + EventEffects(EventsOf(d))
  }

  /** `register` first binds the alias to the base path, then adds the
      rules (if set, with `append` false), then sets the module under its
      id, then binds every event in list order; it makes no other call. */
  lemma RegisterCallOrder(rev: Revision, basePath: string, d: Descriptor)
    requires HasIdAndClass(d)
    ensures var r := RegisterEffects(rev, basePath, d);
      && r[0] == AliasSet(AliasName(d), basePath)
      && PhaseOrdered(r)
      && NoCacheWrite(r)
      && |r| == 2 + |RuleEffects(d)| + |EventsOf(d)|
      && r[1..1 + |RuleEffects(d)|] == RuleEffects(d)
      && r[1 + |RuleEffects(d)|] == ModuleSet(d.id.value, RecordOf(rev, d))
      && r[2 + |RuleEffects(d)|..] == EventEffects(EventsOf(d))
  {
    var rules := RuleEffects(d);
    var events := EventEffects(EventsOf(d));
    assert forall e | e in events :: e.EventBound?;
    StagesOrdered(AliasSet(AliasName(d), basePath), rules, ModuleSet(d.id.value, RecordOf(rev, d)), events);
  }

  /** An alias, then rule additions, then a module, then event bindings:
      the stages come in order, none is a cache write, and the pieces sit
      where they were put. */
  lemma StagesOrdered(alias: Effect, rules: seq<Effect>, setModule: Effect, events: seq<Effect>)
    requires alias.AliasSet? && setModule.ModuleSet? && |rules| <= 1
    requires forall e | e in rules :: e.RulesAdded?
    requires forall e | e in events :: e.EventBound?
    ensures var r := [alias] + rules + [setModule] + events;
      && r[0] == alias
      && PhaseOrdered(r)
      && NoCacheWrite(r)
      && r[1..1 + |rules|] == rules
      && r[1 + |rules|] == setModule
      && r[2 + |rules|..] == events
  {
    var head := [alias] + rules + [setModule];
    var r := head + events;
    var n := |rules|;
    forall i | 0 <= i < |r|
      ensures Phase(r[i]) == if i == 0 then 0 else if i <= n then 1 else if i == n + 1 then 2 else 3
    {
      if i == 0 {
        assert r[i] == alias;
      } else if i <= n {
        assert r[i] == rules[i - 1] && rules[i - 1] in rules;
      } else if i == n + 1 {
        assert r[i] == setModule;
      } else {
        assert r[i] == events[i - n - 2] && events[i - n - 2] in events;
      }
    }
    assert r[1..1 + n] == rules;
    assert r[2 + n..] == events;
  }

  /** `register($basePath, $config)`. */
  method Register(app: App, rev: Revision, basePath: string, config: Descriptor)
    requires HasIdAndClass(config)
    modifies app
    ensures app.log == old(app.log) + RegisterEffects(rev, basePath, config)
    ensures app.cache == old(app.cache)
  {
    ghost var start := app.log;
    if config.namespace.Some? {
      app.SetAlias("@" + ReplaceBackslashes(config.namespace.value), basePath);
    } else {
      app.SetAlias("@" + config.id.value, basePath);
    }
    ghost var done := [AliasSet(AliasName(config), basePath)];
    assert app.log == start + done;
    // `$config['modules']`, defaulted to `[]`
    var modules := if config.modules.Some? then config.modules.value else [];
    if config.urlManagerRules.Some? {
      app.AddRules(config.urlManagerRules.value, false);
    }
    AppendAssoc(start, done, RuleEffects(config));
    done := done + RuleEffects(config);
    assert app.log == start + done;
    if rev.Refactored? && |modules| > 0 {
      modules := StripRules(modules);
    }
    var moduleConfig := ModuleRecord(config.cls.value, modules);
    assert moduleConfig == RecordOf(rev, config);
    app.SetModule(config.id.value, moduleConfig);
    AppendAssoc(start, done, [ModuleSet(config.id.value, moduleConfig)]);
    done := done + [ModuleSet(config.id.value, moduleConfig)];
    if config.events.Some? {
      BindEvents(app, config.events.value);
    }
    AppendAssoc(start, done, EventEffects(EventsOf(config)));
    done := done + EventEffects(EventsOf(config));
    assert app.log == start + done;
  }

  lemma AppendAssoc(a: seq<Effect>, b: seq<Effect>, c: seq<Effect>)
    ensures a + b + c == a + (b + c)
  {
  }

  /** The `foreach` over `events` in `register`: one `Event::on` per entry,
      in list order. */
  method BindEvents(app: App, events: seq<EventEntry>)
    modifies app
    ensures app.log == old(app.log) + EventEffects(events)
    ensures app.cache == old(app.cache)
  {
    var i := 0;
    while i < |events|
      invariant 0 <= i <= |events|
      invariant app.log == old(app.log) + EventEffects(events[..i])
      invariant app.cache == old(app.cache)
    {
      var event := events[i];
      if event.cls.Some? {
        app.On(event.cls, event.event, event.callback);
      } else {
        app.On(event.at0, event.at1, event.at2);
      }
      EventEffectsSnoc(events, i);
      i := i + 1;
    }
    assert events[..|events|] == events;
  }

  // ---------------------------------------------------------------------
  // Validation (`load`)

  /** What `load($modules)` does: every descriptor in map order is checked
      for `class` and `id` and registered; the first one lacking either
      throws, and nothing after it is registered. */
  function LoadEntries(rev: Revision, m: ModuleMap): Run
    decreases |m|
  {
    if m == [] then Run([], Pass)
    else
      var prev := LoadEntries(rev, m[..|m| - 1]);
      var (basePath, config) := m[|m| - 1];
      if prev.outcome.Fail? then prev
      else if !HasIdAndClass(config) then Run(prev.effects, Fail(MissingIdOrClass))
      else Run(prev.effects + RegisterEffects(rev, basePath, config), Pass)
  }

  /** `load($modules)`. */
  method Load(app: App, rev: Revision, modules: ModuleMap) returns (outcome: Outcome)
    modifies app
    ensures app.log == old(app.log) + LoadEntries(rev, modules).effects
    ensures outcome == LoadEntries(rev, modules).outcome
    ensures app.cache == old(app.cache)
  {
    var i := 0;
    ghost var done: seq<Effect> := [];
    while i < |modules|
      invariant 0 <= i <= |modules|
      invariant LoadEntries(rev, modules[..i]) == Run(done, Pass)
      invariant app.log == old(app.log) + done
      invariant app.cache == old(app.cache)
    {
      var basePath := modules[i].0;
      var config := modules[i].1;
      if config.cls.None? || config.id.None? {
        LoadStops(rev, modules, i, done);
        return Fail(MissingIdOrClass);
      }
      Register(app, rev, basePath, config);
      LoadAdvances(rev, modules, i, done);
      AppendAssoc(old(app.log), done, RegisterEffects(rev, basePath, config));
      done := done + RegisterEffects(rev, basePath, config);
      i := i + 1;
    }
    assert modules[..|modules|] == modules;
    return Pass;
  }

  /** One more valid descriptor: `load` registers it after the others. */
  lemma LoadAdvances(rev: Revision, m: ModuleMap, i: nat, done: seq<Effect>)
    requires i < |m| && LoadEntries(rev, m[..i]) == Run(done, Pass) && HasIdAndClass(m[i].1)
    ensures LoadEntries(rev, m[..i + 1]) == Run(done + RegisterEffects(rev, m[i].0, m[i].1), Pass)
  {
    var upTo := m[..i + 1];
    assert upTo[..i] == m[..i] && upTo[i] == m[i];
    LoadStepValid(rev, upTo);
  }

  /** An invalid descriptor after valid ones: `load` throws there. */
  lemma LoadStops(rev: Revision, m: ModuleMap, i: nat, done: seq<Effect>)
    requires i < |m| && LoadEntries(rev, m[..i]) == Run(done, Pass) && !HasIdAndClass(m[i].1)
    ensures LoadEntries(rev, m) == Run(done, Fail(MissingIdOrClass))
  {
    var upTo := m[..i + 1];
    assert upTo[..i] == m[..i] && upTo[i] == m[i];
    LoadStepInvalid(rev, upTo);
    LoadFailurePersists(rev, m, i + 1);
  }

  lemma LoadStepValid(rev: Revision, m: ModuleMap)
    requires m != [] && LoadEntries(rev, m[..|m| - 1]).outcome.Pass? && HasIdAndClass(m[|m| - 1].1)
    ensures LoadEntries(rev, m) ==
      Run(LoadEntries(rev, m[..|m| - 1]).effects + RegisterEffects(rev, m[|m| - 1].0, m[|m| - 1].1), Pass)
  {
  }

  lemma LoadStepInvalid(rev: Revision, m: ModuleMap)
    requires m != [] && LoadEntries(rev, m[..|m| - 1]).outcome.Pass? && !HasIdAndClass(m[|m| - 1].1)
    ensures LoadEntries(rev, m) == Run(LoadEntries(rev, m[..|m| - 1]).effects, Fail(MissingIdOrClass))
  {
  }

  /** Once `load` has thrown on a prefix of the map, the rest is never
      looked at. */
  lemma {:induction false} LoadFailurePersists(rev: Revision, m: ModuleMap, n: nat)
    requires n <= |m|
    requires LoadEntries(rev, m[..n]).outcome.Fail?
    ensures LoadEntries(rev, m) == LoadEntries(rev, m[..n])
    decreases |m|
  {
    if n == |m| {
      assert m[..n] == m;
    } else {
      var init := m[..|m| - 1];
      assert init[..n] == m[..n];
      LoadFailurePersists(rev, init, n);
    }
  }

  /** Every descriptor of `m` has both `id` and `class`. */
  ghost predicate AllValid(m: ModuleMap)
  {
    forall i :: 0 <= i < |m| ==> HasIdAndClass(m[i].1)
  }

  /** The registrations of a list of valid descriptors, one after another. */
  function RegisterAll(rev: Revision, m: ModuleMap): seq<Effect>
    requires AllValid(m)
  {
    if m == [] then [] else RegisterEffects(rev, m[0].0, m[0].1) + RegisterAll(rev, m[1..])
  }

  lemma {:induction false} RegisterAllSnoc(rev: Revision, m: ModuleMap, p: (string, Descriptor))
    requires AllValid(m) && HasIdAndClass(p.1)
    ensures AllValid(m + [p])
    ensures RegisterAll(rev, m + [p]) == RegisterAll(rev, m) + RegisterEffects(rev, p.0, p.1)
  {
    assert AllValid(m + [p]) by {
      forall i | 0 <= i < |m + [p]| ensures HasIdAndClass((m + [p])[i].1) {
        if i < |m| { assert (m + [p])[i] == m[i]; }
      }
    }
    if m != [] {
      assert (m + [p])[1..] == m[1..] + [p];
      RegisterAllSnoc(rev, m[1..], p);
    }
  }

  /** With every descriptor valid, `load` registers them all, in map order,
      and returns normally. */
  lemma {:induction false} LoadRegistersAll(rev: Revision, m: ModuleMap)
    requires AllValid(m)
    ensures LoadEntries(rev, m) == Run(RegisterAll(rev, m), Pass)
    decreases |m|
  {
    if m != [] {
      var init := m[..|m| - 1];
      assert AllValid(init);
      LoadRegistersAll(rev, init);
      LoadStepValid(rev, m);
      RegisterAllStep(rev, m);
    }
  }

  /** `RegisterAllSnoc` for a map split before its last pair. */
  lemma RegisterAllStep(rev: Revision, m: ModuleMap)
    requires m != [] && AllValid(m)
    ensures AllValid(m[..|m| - 1])
    ensures RegisterAll(rev, m) == RegisterAll(rev, m[..|m| - 1]) + RegisterEffects(rev, m[|m| - 1].0, m[|m| - 1].1)
  {
    var init := m[..|m| - 1];
    assert AllValid(init);
    assert m == init + [m[|m| - 1]];
    RegisterAllSnoc(rev, init, m[|m| - 1]);
  }

  /** When descriptor `i` is the first without `class` or `id`, `load` has
      registered exactly the descriptors before it and then throws. */
  lemma LoadStopsAtFirstInvalid(rev: Revision, m: ModuleMap, i: nat)
    requires i < |m| && AllValid(m[..i]) && !HasIdAndClass(m[i].1)
    ensures LoadEntries(rev, m) == Run(RegisterAll(rev, m[..i]), Fail(MissingIdOrClass))
  {
    var pre := m[..i + 1];
    LoadRegistersAll(rev, m[..i]);
    assert pre[..|pre| - 1] == m[..i];
    LoadStepInvalid(rev, pre);
    LoadFailurePersists(rev, m, i + 1);
  }

  /** `load` returns normally exactly when every descriptor is valid. */
  lemma {:induction false} LoadPassesIffAllValid(rev: Revision, m: ModuleMap)
    ensures LoadEntries(rev, m).outcome.Pass? <==> AllValid(m)
    decreases |m|
  {
    if m != [] {
      var init := m[..|m| - 1];
      LoadPassesIffAllValid(rev, init);
      assert forall i :: 0 <= i < |init| ==> init[i] == m[i];
    }
  }

  /** `load` never writes the cache. */
  lemma {:induction false} LoadWritesNoCache(rev: Revision, m: ModuleMap)
    ensures NoCacheWrite(LoadEntries(rev, m).effects)
    decreases |m|
  {
    if m != [] {
      LoadWritesNoCache(rev, m[..|m| - 1]);
      var config := m[|m| - 1].1;
      if HasIdAndClass(config) {
        RegisterCallOrder(rev, m[|m| - 1].0, config);
      }
    }
  }

  /** When no descriptor's child declares URL rules, both revisions of
      `load` make exactly the same calls. */
  lemma {:induction false} RevisionsLoadAlike(m: ModuleMap)
    requires forall i, j :: 0 <= i < |m| && 0 <= j < |ChildrenOf(m[i].1)| ==>
      ChildrenOf(m[i].1)[j].1.urlManagerRules.None?
    ensures LoadEntries(Original, m) == LoadEntries(Refactored, m)
    decreases |m|
  {
    if m != [] {
      var init := m[..|m| - 1];
      RevisionsLoadAlike(init);
      StripRulesWithoutRules(ChildrenOf(m[|m| - 1].1));
    }
  }

  // ---------------------------------------------------------------------
  // Cache policy (`getModulesConfig`)

  /** What `getModulesConfig` does, given what the scan of the roots would
      yield, the cached value (`None` for `false`) and `YII_DEBUG`: a hit
      goes straight to `load`; a miss takes the scan, writes it to the cache
      unless in debug mode, and then loads it. A failing scan throws before
      anything is written or registered. */
  function Bootstrap(rev: Revision, scanned: Result<ModuleMap>, cached: Option<ModuleMap>, debug: bool): Run
  {
    match cached
    case Some(m) => LoadEntries(rev, m)
    case None =>
      match scanned
      case Err(err) => Run([], Fail(err))
      case Ok(m) =>
        var write := if debug then [] else [CacheWritten(CacheId, m)];
        var load := LoadEntries(rev, m);
        Run(write + load.effects, load.outcome)
  }

  /** The cache after `getModulesConfig`. */
  function CacheAfter(scanned: Result<ModuleMap>, cache: map<string, ModuleMap>, debug: bool): map<string, ModuleMap>
  {
    if CacheId !in cache && !debug && scanned.Ok? then cache[CacheId := scanned.value] else cache
  }

  /** A cache hit loads the cached map whatever a scan would give (no scan
      is made) and writes nothing to the cache. */
  lemma CacheHitSkipsScan(rev: Revision, scanned: Result<ModuleMap>, m: ModuleMap, debug: bool)
    ensures Bootstrap(rev, scanned, Some(m), debug) == LoadEntries(rev, m)
    ensures NoCacheWrite(Bootstrap(rev, scanned, Some(m), debug).effects)
  {
    LoadWritesNoCache(rev, m);
  }

  /** On a miss, a failing scan ends the bootstrap with no effect at all; a
      successful one is written to the cache before anything is registered,
      except in debug mode, where nothing is written. */
  lemma CacheMissScans(rev: Revision, scanned: Result<ModuleMap>, debug: bool)
    ensures scanned.Err? ==> Bootstrap(rev, scanned, None, debug) == Run([], Fail(scanned.error))
    ensures scanned.Ok? && !debug ==>
      Bootstrap(rev, scanned, None, debug).effects ==
        [CacheWritten(CacheId, scanned.value)] + LoadEntries(rev, scanned.value).effects
    ensures debug ==> NoCacheWrite(Bootstrap(rev, scanned, None, debug).effects)
  {
    if scanned.Ok? {
      LoadWritesNoCache(rev, scanned.value);
      assert [] + LoadEntries(rev, scanned.value).effects == LoadEntries(rev, scanned.value).effects;
    }
  }

  /** Two bootstraps outside debug mode on an empty cache: the first scans
      and writes the cache; the second, whatever a scan would then give,
      loads the cached map and makes the same registrations without a
      cache write. */
  lemma SecondBootstrapUsesCache(rev: Revision, scanned: Result<ModuleMap>, later: Result<ModuleMap>,
                                 cache: map<string, ModuleMap>, debug: bool)
    requires CacheId !in cache && scanned.Ok?
    ensures CacheLookup(CacheAfter(scanned, cache, false), CacheId) == Some(scanned.value)
    ensures Bootstrap(rev, scanned, None, false).effects ==
      [CacheWritten(CacheId, scanned.value)]
      + Bootstrap(rev, later, CacheLookup(CacheAfter(scanned, cache, false), CacheId), debug).effects
    ensures Bootstrap(rev, later, CacheLookup(CacheAfter(scanned, cache, false), CacheId), debug).outcome ==
      Bootstrap(rev, scanned, None, false).outcome
  {
  }
}
