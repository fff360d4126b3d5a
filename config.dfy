/** The data a module loader works on: module descriptors (what a module's
    `config.php` returns), the entries of their `events` lists, and the calls
    the loader makes into the host application, recorded as effects. */
module Config {
  import opened Basics

  /** One URL rule of `urlManagerRules`: a pattern and the route it maps to. */
  datatype Rule = Rule(pattern: string, route: string)

  /** One element of a descriptor's `events` list. It is a PHP array that may
      carry the named keys `class`, `event` and `callback`, or the positional
      keys 0, 1 and 2. Classes, event names and handler callables are given by
      their names. */
  datatype EventEntry = EventEntry(
    cls: Option<string>, event: Option<string>, callback: Option<string>,
    at0: Option<string>, at1: Option<string>, at2: Option<string>)

  /** A module descriptor, the array a module's `config.php` returns. Each
      key the loader reads is optional; `modules` holds child descriptors
      keyed by child id, in order. */
  datatype Descriptor = Descriptor(
    id: Option<string>,
    cls: Option<string>,
    namespace: Option<string>,
    urlManagerRules: Option<seq<Rule>>,
    modules: Option<seq<(string, Descriptor)>>,
    events: Option<seq<EventEntry>>)

  /** A discovery result: descriptors keyed by base path (or bare name). */
  type ModuleMap = seq<(string, Descriptor)>

  /** The array `['class' => ..., 'modules' => ...]` handed to `setModule`. */
  datatype ModuleRecord = ModuleRecord(cls: string, modules: ModuleMap)

  /** The calls the loader makes into the host, in the order made:
      `Yii::setAlias`, `urlManager->addRules`, `setModule`, `Event::on` and
      `cache->set`. An absent argument of `Event::on` is PHP's null. */
  datatype Effect =
    | AliasSet(alias: string, path: string)
    | RulesAdded(rules: seq<Rule>, append: bool)
    | ModuleSet(id: string, record: ModuleRecord)
    | EventBound(cls: Option<string>, event: Option<string>, handler: Option<string>)
    | CacheWritten(key: string, value: ModuleMap)

  /** The two ways the loader throws `InvalidConfigException`. */
  datatype Error = MissingConfigFile | MissingIdOrClass

  /** The exception's message: one fixed text per cause, with nothing of
      the offending entry or descriptor in it. */
  function Message(e: Error): (r: string)
    ensures e.MissingConfigFile? ==> r == "Module configuration requires a 'config.php' file!"
    ensures e.MissingIdOrClass? ==> r == "Module configuration requires an id and class attribute!"
  {
    match e
    case MissingConfigFile => "Module configuration requires a 'config.php' file!"
    case MissingIdOrClass => "Module configuration requires an id and class attribute!"
  }

  /** The two causes can be told apart by their messages. */
  lemma MessagesDiffer()
    ensures Message(MissingConfigFile) != Message(MissingIdOrClass)
  {
    assert Message(MissingConfigFile)[31] != Message(MissingIdOrClass)[31];
  }

  /** The key under which the discovery result is cached. */
  const CacheId := "modules_config"

  datatype Result<+T> = Ok(value: T) | Err(error: Error)

  /** A call that returns normally or throws. */
  datatype Outcome = Pass | Fail(error: Error)

  /** What a call did to the host (its effects, in order) and how it ended. */
  datatype Run = Run(effects: seq<Effect>, outcome: Outcome)

  /** The descriptor PHP creates when it assigns `$a[$k]['modules']` to a key
      `$k` that is not yet present: an array holding only `modules`. */
  function OnlyModules(children: ModuleMap): (d: Descriptor)
    ensures d.modules == Some(children)
    ensures d.id.None? && d.cls.None? && d.namespace.None?
    ensures d.urlManagerRules.None? && d.events.None?
  {
    Descriptor(None, None, None, None, Some(children), None)
  }

  /** The check `load` makes before registering a descriptor. An entry PHP
      created only to hold `modules` never passes it. */
  predicate HasIdAndClass(d: Descriptor)
    ensures d.modules.Some? && d == OnlyModules(d.modules.value) ==> !HasIdAndClass(d)
  {
    d.cls.Some? && d.id.Some?
  }

  /** `$config['modules']` after `register` has defaulted it to `[]`. */
  function ChildrenOf(d: Descriptor): (r: ModuleMap)
    ensures d.modules.Some? ==> r == d.modules.value
    ensures d.modules.None? ==> r == []
  {
    if d.modules.Some? then d.modules.value else []
  }

  /** The events `register` iterates over (none when `events` is not set). */
  function EventsOf(d: Descriptor): (r: seq<EventEntry>)
    ensures d.events.Some? ==> r == d.events.value
    ensures d.events.None? ==> r == []
  {
    if d.events.Some? then d.events.value else []
  }

  /** `str_replace('\\', '/', s)`. */
  function ReplaceBackslashes(s: string): (r: string)
    ensures |r| == |s|
    ensures forall i :: 0 <= i < |s| ==> r[i] == (if s[i] == '\\' then '/' else s[i])
    ensures '\\' !in r
  {
    if s == [] then []
    else [if s[0] == '\\' then '/' else s[0]] + ReplaceBackslashes(s[1..])
  }

  /** The alias `register` binds to the module's base path: `@` followed by
      the namespace with backslashes turned into slashes, or by the id when
      there is no namespace. */
  function AliasName(d: Descriptor): (r: string)
    requires d.id.Some?
    ensures |r| >= 1 && r[0] == '@'
    ensures d.namespace.Some? ==> r[1..] == ReplaceBackslashes(d.namespace.value) && '\\' !in r
    ensures d.namespace.None? ==> r[1..] == d.id.value
  {
    if d.namespace.Some? then "@" + ReplaceBackslashes(d.namespace.value) else "@" + d.id.value
  }

  /** The `Event::on` call made for one entry of `events`: the named keys
      when `class` is set, else the positional ones. */
  function BindingOf(e: EventEntry): (r: Effect)
    ensures r.EventBound?
    ensures e.cls.Some? ==> r.cls == e.cls && r.event == e.event && r.handler == e.callback
    ensures e.cls.None? ==> r.cls == e.at0 && r.event == e.at1 && r.handler == e.at2
  {
    if e.cls.Some? then EventBound(e.cls, e.event, e.callback)
    else EventBound(e.at0, e.at1, e.at2)
  }

  /** `['class' => c, 'event' => ev, 'callback' => h]`. */
  function NamedEvent(c: string, ev: string, h: string): EventEntry
  {
    EventEntry(Some(c), Some(ev), Some(h), None, None, None)
  }

  /** `[c, ev, h]`. */
  function PositionalEvent(c: string, ev: string, h: string): EventEntry
  {
    EventEntry(None, None, None, Some(c), Some(ev), Some(h))
  }

  /** Both encodings of an event entry bind the same handler to the same
      class and event. */
  lemma EncodingsBindAlike(c: string, ev: string, h: string)
    ensures BindingOf(NamedEvent(c, ev, h)) == BindingOf(PositionalEvent(c, ev, h))
    ensures BindingOf(NamedEvent(c, ev, h)) == EventBound(Some(c), Some(ev), Some(h))
  {
  }

  /** The `Event::on` calls of a whole `events` list, in list order. */
  function EventEffects(events: seq<EventEntry>): (r: seq<Effect>)
    ensures |r| == |events|
    ensures forall i :: 0 <= i < |events| ==> r[i] == BindingOf(events[i])
    ensures NoCacheWrite(r)
  {
    seq(|events|, i requires 0 <= i < |events| => BindingOf(events[i]))
  }

  /** Binding the events of a list one more entry long adds that entry's
      binding at the end. */
  lemma EventEffectsSnoc(events: seq<EventEntry>, i: nat)
    requires i < |events|
    ensures EventEffects(events[..i + 1]) == EventEffects(events[..i]) + [BindingOf(events[i])]
  {
    assert EventEffects(events[..i + 1]) == EventEffects(events[..i]) + [BindingOf(events[i])];
  }

  /** The `addRules` call `register` makes, present only when the
      descriptor sets `urlManagerRules`, always with the literal `false` as
      its `append` argument. */
  function RuleEffects(d: Descriptor): (r: seq<Effect>)
    ensures |r| <= 1
    ensures r != [] <==> d.urlManagerRules.Some?
    ensures r != [] ==> r[0] == RulesAdded(d.urlManagerRules.value, false)
  {
    if d.urlManagerRules.Some? then [RulesAdded(d.urlManagerRules.value, false)] else []
  }

  /** The stage of `register` an effect belongs to: alias, rules, module,
      events. */
  function Phase(e: Effect): nat
  {
    match e
    case AliasSet(_, _) => 0
    case RulesAdded(_, _) => 1
    case ModuleSet(_, _) => 2
    case EventBound(_, _, _) => 3
    case CacheWritten(_, _) => 4
  }

  /** Effects that come in the order of the stages of `register`. */
  ghost predicate PhaseOrdered(effects: seq<Effect>)
  {
    forall i, j :: 0 <= i < j < |effects| ==> Phase(effects[i]) <= Phase(effects[j])
  }

  /** No effect in the list is a cache write. */
  predicate NoCacheWrite(effects: seq<Effect>)
  {
    forall i :: 0 <= i < |effects| ==> !effects[i].CacheWritten?
  }
}
