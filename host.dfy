/** The host application (`Yii::$app` and the static `Yii` and `Event`
    services) as far as the loader touches it: a cache, and a log of every
    registration call made into it, in order. */
module Host {
  import opened Basics
  import opened Config

  /** `cache->get(key)`: the stored value, or `None` for PHP's `false`. */
  function CacheLookup(cache: map<string, ModuleMap>, key: string): (r: Option<ModuleMap>)
    ensures r.Some? <==> key in cache
    ensures r.Some? ==> r.value == cache[key]
  {
    if key in cache then Some(cache[key]) else None
  }

  class App {
    /** Every call into the host's registries, oldest first. */
    var log: seq<Effect>
    /** The application cache. */
    var cache: map<string, ModuleMap>

    constructor (cache: map<string, ModuleMap>)
      ensures log == [] && this.cache == cache
    {
      log := [];
      this.cache := cache;
    }

    /** `Yii::setAlias(alias, path)`. */
    method SetAlias(alias: string, path: string)
      modifies this
      ensures log == old(log) + [AliasSet(alias, path)]
      ensures cache == old(cache)
    {
      log := log + [AliasSet(alias, path)];
    }

    /** `Yii::$app->urlManager->addRules(rules, append)`. */
    method AddRules(rules: seq<Rule>, append: bool)
      modifies this
      ensures log == old(log) + [RulesAdded(rules, append)]
      ensures cache == old(cache)
    {
      log := log + [RulesAdded(rules, append)];
    }

    /** `Yii::$app->setModule(id, record)`. */
    method SetModule(id: string, record: ModuleRecord)
      modifies this
      ensures log == old(log) + [ModuleSet(id, record)]
      ensures cache == old(cache)
    {
      log := log + [ModuleSet(id, record)];
    }

    /** `Event::on(cls, event, handler)`. */
    method On(cls: Option<string>, event: Option<string>, handler: Option<string>)
      modifies this
      ensures log == old(log) + [EventBound(cls, event, handler)]
      ensures cache == old(cache)
    {
      log := log + [EventBound(cls, event, handler)];
    }

    /** `Yii::$app->cache->get(key)`. */
    method CacheGet(key: string) returns (r: Option<ModuleMap>)
      ensures r == CacheLookup(cache, key)
    {
      r := if key in cache then Some(cache[key]) else None;
    }

    /** `Yii::$app->cache->set(key, value)`. */
    method CacheSet(key: string, value: ModuleMap)
      modifies this
      ensures cache == old(cache)[key := value]
      ensures log == old(log) + [CacheWritten(key, value)]
    {
      cache := cache[key := value];
      log := log + [CacheWritten(key, value)];
    }
  }
}
