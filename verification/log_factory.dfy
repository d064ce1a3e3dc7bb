/**
 * The logger registry: a map from logger name to handle, filled lazily by
 * get-or-insert. A lookup reads the map optimistically; on a miss it builds
 * a candidate handle and inserts it with `putIfAbsent`, returning whichever
 * handle ended up stored. Entries are never removed.
 *
 * The model is sequential: `putIfAbsent` is one atomic step. Calls made by
 * other threads between the read and the `putIfAbsent` are modelled as a
 * sequence of whole lookups run in that window.
 */
module LogFactory {
  import opened Wrappers
  import opened Logging

  /**
   * The registry map and the allocation counter that gives each newly built
   * handle an identity no earlier handle has.
   */
  datatype Registry = Registry(loggers: map<string, Log>, nextRef: nat)

  /** The result of a lookup: the registry afterwards and the handle returned. */
  datatype Lookup = Lookup(registry: Registry, log: Log)

  /** The registry at start-up: no loggers yet. */
  const Initial := Registry(map[], 0)

  /**
   * Every stored handle is bound to its own key and was allocated before the
   * counter, and distinct names hold distinct handles.
   */
  ghost predicate Valid(r: Registry) {
    && (forall n | n in r.loggers :: r.loggers[n].name == n && r.loggers[n].ref < r.nextRef)
    && (forall n1, n2 | n1 in r.loggers && n2 in r.loggers && n1 != n2 ::
          r.loggers[n1].ref != r.loggers[n2].ref)
  }

  lemma InitialValid()
    ensures Valid(Initial) && Initial.loggers == map[]
  {
  }

  /** `new Log(name)`: a handle with a fresh identity, bound to `name`. */
  function Allocate(r: Registry, name: string): (l: Lookup)
    ensures l.log.name == name
    ensures l.log.ref == r.nextRef
    ensures l.registry.loggers == r.loggers && l.registry.nextRef > l.log.ref
  {
    Lookup(r.(nextRef := r.nextRef + 1), Log(r.nextRef, name))
  }

  /**
   * `ConcurrentHashMap.putIfAbsent`: a present key keeps its value, which is
   * returned; an absent key is bound to `v` and None is returned.
   */
  function PutIfAbsent(m: map<string, Log>, k: string, v: Log): (res: (map<string, Log>, Option<Log>))
    ensures k in m ==> res.0 == m && res.1 == Some(m[k])
    ensures k !in m ==> res.1 == None && k in res.0 && res.0[k] == v
    ensures res.0.Keys == m.Keys + {k}
    ensures forall n | n in m && n != k :: res.0[n] == m[n]
  {
    if k in m then (m, Some(m[k])) else (m[k := v], None)
  }

  /** `getLog(String)` with the lookups of other threads, `others`, run between its read and its insert. */
  function GetLogRacing(r: Registry, name: string, others: seq<string>): (l: Lookup)
    ensures name in r.loggers ==> l == Lookup(r, r.loggers[name])
    ensures name in l.registry.loggers && l.registry.loggers[name] == l.log
    decreases |others|, 1
  {
    match Get(r.loggers, name)
    case Some(existing) => Lookup(r, existing)
    case None =>
      var built := Allocate(r, name);
      var meanwhile := RunAll(built.registry, others).registry;
      var (m, prior) := PutIfAbsent(meanwhile.loggers, name, built.log);
      Lookup(meanwhile.(loggers := m), if prior.Some? then prior.value else built.log)
  }

  /** `getLog(String)` with nothing interleaved. */
  function GetLog(r: Registry, name: string): (l: Lookup)
    ensures name in r.loggers ==> l == Lookup(r, r.loggers[name])
    ensures name in l.registry.loggers && l.registry.loggers[name] == l.log
    ensures l.registry.loggers.Keys == r.loggers.Keys + {name}
    ensures forall n | n in r.loggers :: l.registry.loggers[n] == r.loggers[n]
    ensures name !in r.loggers ==> l.log == Log(r.nextRef, name)
    ensures r.nextRef <= l.registry.nextRef
    decreases 0, 2
  {
    GetLogRacing(r, name, [])
  }

  /** A run of sequential lookups: the final registry and the handle each returned. */
  datatype Run = Run(registry: Registry, logs: seq<Log>)

  /** The lookups of `names`, one after the other. */
  function RunAll(r: Registry, names: seq<string>): (run: Run)
    ensures |run.logs| == |names|
    decreases |names|, 0
  {
    if |names| == 0 then Run(r, [])
    else
      var first := GetLog(r, names[0]);
      var tail := RunAll(first.registry, names[1..]);
      Run(tail.registry, [first.log] + tail.logs)
  }

  /** `getLog(Class)`: the lookup under the class's name. */
  function GetLogForClass(r: Registry, className: string): (l: Lookup)
    ensures className in l.registry.loggers && l.registry.loggers[className] == l.log
    ensures className !in r.loggers ==> l.log.name == className
    ensures className in r.loggers ==> l == Lookup(r, r.loggers[className])
  {
    GetLog(r, className)
  }

  /**
   * A lookup keeps the registry valid; a handle it inserts is fresh, so no
   * other name holds it.
   */
  lemma GetLogPreservesValid(r: Registry, name: string)
    requires Valid(r)
    ensures Valid(GetLog(r, name).registry)
    ensures name !in r.loggers ==>
              forall n | n in r.loggers :: r.loggers[n].ref != GetLog(r, name).log.ref
  {
  }

  /** Asking twice for the same name returns the identical handle and changes nothing the second time. */
  lemma GetLogIdempotent(r: Registry, name: string)
    ensures var first := GetLog(r, name);
            GetLog(first.registry, name) == Lookup(first.registry, first.log)
  {
  }

  /**
   * `r2` grows `r`: every entry of `r` is kept with its handle, the counter
   * does not go back, and handles added since carry identities from the
   * counter of `r` onwards.
   */
  ghost predicate Extends(r: Registry, r2: Registry) {
    && r.nextRef <= r2.nextRef
    && (forall n | n in r.loggers :: n in r2.loggers && r2.loggers[n] == r.loggers[n])
    && (forall n | n in r2.loggers && n !in r.loggers :: r2.loggers[n].ref >= r.nextRef)
  }

  lemma ExtendsTransitive(r1: Registry, r2: Registry, r3: Registry)
    requires Extends(r1, r2) && Extends(r2, r3)
    ensures Extends(r1, r3)
  {
  }

  /**
   * A run of lookups keeps the registry valid and only grows it, by exactly
   * the names asked for; every call returns the handle finally stored under
   * its name.
   */
  lemma {:induction false} RunAllSpec(r: Registry, names: seq<string>)
    requires Valid(r)
    ensures var run := RunAll(r, names);
            && Valid(run.registry)
            && Extends(r, run.registry)
            && (forall n | n in run.registry.loggers :: n in r.loggers || n in names)
            && (forall i | 0 <= i < |names| ::
                  names[i] in run.registry.loggers && run.registry.loggers[names[i]] == run.logs[i])
    decreases |names|
  {
    if |names| > 0 {
      var first := GetLog(r, names[0]);
      GetLogPreservesValid(r, names[0]);
      assert Extends(r, first.registry);
      RunAllSpec(first.registry, names[1..]);
      var run := RunAll(r, names);
      var tail := RunAll(first.registry, names[1..]);
      assert run.registry == tail.registry;
      ExtendsTransitive(r, first.registry, tail.registry);
      assert run.logs == [first.log] + tail.logs;
      forall i | 0 <= i < |names|
        ensures names[i] in run.registry.loggers && run.registry.loggers[names[i]] == run.logs[i]
      {
        if i > 0 {
          assert names[i] == names[1..][i - 1];
        }
      }
      forall n | n in run.registry.loggers
        ensures n in r.loggers || n in names
      {
        if n !in first.registry.loggers && n in names[1..] {
          var k :| 0 <= k < |names[1..]| && names[1..][k] == n;
          assert names[k + 1] == n;
        }
      }
    }
  }

  /** All lookups of one name in a run return the same handle; distinct names get distinct handles. */
  lemma RunAllConverges(r: Registry, names: seq<string>, i: nat, j: nat)
    requires Valid(r)
    requires i < |names| && j < |names|
    ensures names[i] == names[j] <==> RunAll(r, names).logs[i] == RunAll(r, names).logs[j]
    ensures names[i] != names[j] ==> RunAll(r, names).logs[i].ref != RunAll(r, names).logs[j].ref
  {
    RunAllSpec(r, names);
  }

  /**
   * A lookup raced by the lookups `others` of other threads, run between its
   * read and its `putIfAbsent`, keeps the registry valid and returns the
   * handle stored under `name`. When another thread inserted `name` in that
   * window, its handle is returned and the freshly built candidate is
   * discarded; otherwise the candidate is inserted.
   */
  lemma GetLogRacingSpec(r: Registry, name: string, others: seq<string>)
    requires Valid(r)
    ensures var l := GetLogRacing(r, name, others);
            && Valid(l.registry)
            && name in l.registry.loggers && l.registry.loggers[name] == l.log
            && Extends(r, l.registry)
            && (name in r.loggers ==> l == Lookup(r, r.loggers[name]))
            && (name !in r.loggers && name in others ==>
                  && l.log.ref != r.nextRef
                  && l.log == RunAll(Allocate(r, name).registry, others).registry.loggers[name])
            && (name !in r.loggers && name !in others ==> l.log == Log(r.nextRef, name))
  {
    if name !in r.loggers {
      var built := Allocate(r, name);
      RunAllSpec(built.registry, others);
      if name in others {
        var i :| 0 <= i < |others| && others[i] == name;
        assert name in RunAll(built.registry, others).registry.loggers;
      }
    }
  }

  /** Whatever raced it, a later lookup of the same name returns the handle the raced lookup returned. */
  lemma RacingConverges(r: Registry, name: string, others: seq<string>)
    requires Valid(r)
    ensures var l := GetLogRacing(r, name, others);
            GetLog(l.registry, name).log == l.log
  {
    GetLogRacingSpec(r, name, others);
  }
}
