/**
 * restore(defaults) as a function of the instance before the call, and
 * the properties it promises: registered fields keep their stored values
 * and never consult their defaults, new fields are seeded from their
 * defaults and made durable, the registry only grows, and running restore
 * again changes nothing.
 */
module Restorer {
  import opened Wrappers
  import opened Json
  import opened AsyncStorage
  import opened Registry
  import opened Protocol

  // ---------------------------------------------------------------------
  // Defaults

  /** A default: a literal, or a function returning a promise, given by what that promise settles to. */
  datatype Default = Literal(value: Value) | Producer(outcome: Option<Value>)

  predicate Settles(d: Default) {
    d.Literal? || d.outcome.Some?
  }

  function SettledValue(d: Default): Value
    requires Settles(d)
  {
    if d.Literal? then d.value else d.outcome.value
  }

  /** defaultsObj: each name with the value its default settles to. */
  function Resolved(names: seq<string>, values: map<string, Default>): (obj: map<string, Value>)
    requires forall k :: k in names ==> k in values
    ensures forall k :: k in obj <==> k in names && Settles(values[k])
  {
    map k | k in names && Settles(values[k]) :: SettledValue(values[k])
  }

  /** Some producer among these names rejects, and with it Promise.all(defaultsQueue). */
  predicate Rejects(names: seq<string>, values: map<string, Default>)
    requires forall k :: k in names ==> k in values
  {
    exists k :: k in names && !Settles(values[k])
  }

  /** The names whose producers are invoked, in invocation order. */
  function Producers(names: seq<string>, values: map<string, Default>): (r: seq<string>)
    requires forall k :: k in names ==> k in values
    ensures forall k :: k in r <==> k in names && values[k].Producer?
  {
    if names == [] then []
    else
      var last := names[|names| - 1];
      Producers(names[..|names| - 1], values) + (if values[last].Producer? then [last] else [])
  }

  /** One more default taken, in the order of the names: the loop step of restore's second pass. */
  lemma DefaultsStep(names: seq<string>, j: nat, values: map<string, Default>)
    requires j < |names|
    requires forall k :: k in names ==> k in values
    ensures var key := names[j];
      && Resolved(names[..j + 1], values)
           == (if Settles(values[key]) then Resolved(names[..j], values)[key := SettledValue(values[key])]
               else Resolved(names[..j], values))
      && Rejects(names[..j + 1], values) == (Rejects(names[..j], values) || !Settles(values[key]))
      && Producers(names[..j + 1], values)
           == Producers(names[..j], values) + (if values[key].Producer? then [key] else [])
  {
    var key := names[j];
    assert names[..j + 1][..j] == names[..j];
    assert names[..j + 1] == names[..j] + [key];
    var after := Resolved(names[..j + 1], values);
    var expected := if Settles(values[key]) then Resolved(names[..j], values)[key := SettledValue(values[key])]
                    else Resolved(names[..j], values);
    assert after.Keys == expected.Keys;
    if Rejects(names[..j + 1], values) {
      var k :| k in names[..j + 1] && !Settles(values[k]);
      assert k in names[..j] || k == key;
    }
  }

  // ---------------------------------------------------------------------
  // restore

  /** The parts of a component instance restore reads and changes. */
  datatype Snapshot = Snapshot(keyList: seq<string>, data: map<string, string>, state: map<string, Value>)

  datatype RestoreOutcome =
    | Restored           // the returned promise resolves
    | MalformedRegistry  // the stored registry is neither falsy nor a list of names
    | DefaultRejected    // a default's producer rejected

  datatype Reconciliation = Reconciliation(
    outcome: RestoreOutcome,
    after: Snapshot,
    remaining: seq<string>,  // the names left in the caller's defaults
    invoked: seq<string>)    // the names whose producers were called

  /** restoredObj: each registered field with what get() returns for it, null included. */
  function RestoredValues(data: map<string, string>, failing: set<string>, prefix: string,
                          registry: seq<string>): (obj: map<string, Value>)
    ensures forall k :: k in obj <==> k in registry
  {
    map k | k in registry :: Fetch(data, failing, FieldKey(prefix, k))
  }

  /**
   * The store after the writes of restore: none without new names;
   * otherwise the extended registry, then, once every producer has settled,
   * the defaults through setState.
   */
  function Seed(prefix: string, failing: set<string>, data: map<string, string>,
                registry: seq<string>, newNames: seq<string>, values: map<string, Default>): map<string, string>
    requires forall k :: k in newNames ==> k in values
  {
    if newNames == [] then data
    else
      var withRegistry := Written(data, failing, RegistryKey(prefix), RegistryText(registry));
      if Rejects(newNames, values) then withRegistry
      else WriteThrough(withRegistry, failing, prefix, registry, Resolved(newNames, values))
  }

  /**
   * restore(defaults), run to completion. The registry is reloaded; its
   * names are deleted from the defaults and their stored values go straight
   * to the container; the names left are appended to the registry, which is
   * persisted, and their defaults go through setState.
   */
  function Reconcile(prefix: string, failing: set<string>, before: Snapshot,
                     names: seq<string>, values: map<string, Default>): (r: Reconciliation)
    requires forall k :: k in names ==> k in values
    ensures r.outcome == MalformedRegistry <==> LoadedRegistry(before.data, failing, prefix).None?
    ensures r.outcome == MalformedRegistry ==> r.after == before && r.remaining == names && r.invoked == []
  {
    match LoadedRegistry(before.data, failing, prefix)
    case None => Reconciliation(MalformedRegistry, before, names, [])
    case Some(loaded) =>
      var newNames := Unregistered(names, loaded);
      var registry := loaded + newNames;
      var restored := RestoredValues(before.data, failing, prefix, loaded);
      var rejected := Rejects(newNames, values);
      var state :=
        if newNames != [] && !rejected then before.state + restored + Resolved(newNames, values)
        else before.state + restored;
      Reconciliation(if rejected then DefaultRejected else Restored,
                     Snapshot(registry, Seed(prefix, failing, before.data, registry, newNames, values), state),
                     newNames, Producers(newNames, values))
  }

  /** One more registered field read back: the loop step of restore's first pass. */
  lemma RestoredValuesStep(data: map<string, string>, failing: set<string>, prefix: string,
                           registry: seq<string>, field: string)
    ensures RestoredValues(data, failing, prefix, registry + [field])
         == RestoredValues(data, failing, prefix, registry)[field := Fetch(data, failing, FieldKey(prefix, field))]
  {
    var after := RestoredValues(data, failing, prefix, registry + [field]);
    var before := RestoredValues(data, failing, prefix, registry);
    assert after.Keys == before.Keys + {field};
  }

  // ---------------------------------------------------------------------
  // The writes of restore

  /** restore writes only the registry key and the field keys of new names. */
  lemma SeedElsewhere(prefix: string, failing: set<string>, data: map<string, string>,
                      registry: seq<string>, newNames: seq<string>, values: map<string, Default>, key: string)
    requires forall k :: k in newNames ==> k in values
    requires key != RegistryKey(prefix)
    requires forall n :: n in newNames ==> key != FieldKey(prefix, n)
    ensures Lookup(Seed(prefix, failing, data, registry, newNames, values), failing, key) == Lookup(data, failing, key)
  {
    if newNames != [] && !Rejects(newNames, values) {
      var withRegistry := Written(data, failing, RegistryKey(prefix), RegistryText(registry));
      WriteThroughElsewhere(withRegistry, failing, prefix, registry, Resolved(newNames, values), key);
    }
  }

  /** With new names, the extended registry is durable, unless a new field "keyList" overwrites it. */
  lemma SeedRegistry(prefix: string, failing: set<string>, data: map<string, string>,
                     registry: seq<string>, newNames: seq<string>, values: map<string, Default>)
    requires forall k :: k in newNames ==> k in values
    requires newNames != [] && RegistryKey(prefix) !in failing
    requires Rejects(newNames, values) || "keyList" !in newNames
    ensures LoadedRegistry(Seed(prefix, failing, data, registry, newNames, values), failing, prefix) == Some(registry)
  {
    var withRegistry := Written(data, failing, RegistryKey(prefix), RegistryText(registry));
    RegistryRoundTrip(data, failing, prefix, registry);
    if !Rejects(newNames, values) {
      WriteThroughKeepsRegistry(withRegistry, failing, prefix, registry, Resolved(newNames, values));
    }
  }

  /** A new field on a healthy key is stored as the value its default settled to. */
  lemma SeedReadBack(prefix: string, failing: set<string>, data: map<string, string>,
                     registry: seq<string>, newNames: seq<string>, values: map<string, Default>, field: string)
    requires forall k :: k in newNames ==> k in values
    requires !Rejects(newNames, values)
    requires field in newNames && field in registry && FieldKey(prefix, field) !in failing
    ensures Fetch(Seed(prefix, failing, data, registry, newNames, values), failing, FieldKey(prefix, field))
         == SettledValue(values[field])
  {
    var withRegistry := Written(data, failing, RegistryKey(prefix), RegistryText(registry));
    WriteThroughReadBack(withRegistry, failing, prefix, registry, Resolved(newNames, values), field);
  }

  // ---------------------------------------------------------------------
  // What restore promises

  /**
   * Registered names leave the defaults, their producers are never called,
   * and their fields take the stored value as get() returns it, null
   * included.
   */
  lemma ReconcileSkipsRegisteredDefaults(prefix: string, failing: set<string>, before: Snapshot,
                                         names: seq<string>, values: map<string, Default>)
    requires forall k :: k in names ==> k in values
    requires LoadedRegistry(before.data, failing, prefix).Some?
    ensures var loaded := LoadedRegistry(before.data, failing, prefix).value;
            var r := Reconcile(prefix, failing, before, names, values);
      forall k :: k in loaded ==>
        && k !in r.remaining
        && k !in r.invoked
        && k in r.after.state
        && r.after.state[k] == Fetch(before.data, failing, FieldKey(prefix, k))
  {
    var loaded := LoadedRegistry(before.data, failing, prefix).value;
    var r := Reconcile(prefix, failing, before, names, values);
    var restored := RestoredValues(before.data, failing, prefix, loaded);
    var seeded := Resolved(r.remaining, values);
    forall k | k in loaded
      ensures k !in r.remaining && k !in r.invoked && k in r.after.state
      ensures r.after.state[k] == Fetch(before.data, failing, FieldKey(prefix, k))
    {
      assert k !in seeded;
      assert r.after.state[k] == restored[k];
    }
  }

  /**
   * The registry after restore is the loaded one followed by exactly the
   * default names it lacked, in their order among the defaults; it stays
   * duplicate-free.
   */
  lemma ReconcileExtendsRegistry(prefix: string, failing: set<string>, before: Snapshot,
                                 names: seq<string>, values: map<string, Default>)
    requires forall k :: k in names ==> k in values
    requires LoadedRegistry(before.data, failing, prefix).Some?
    ensures var loaded := LoadedRegistry(before.data, failing, prefix).value;
            var r := Reconcile(prefix, failing, before, names, values);
      && r.after.keyList == loaded + r.remaining
      && (forall x :: x in r.remaining <==> x in names && x !in loaded)
      && Subsequence(r.remaining, names)
      && (NoDup(loaded) && NoDup(names) ==> NoDup(r.after.keyList))
  {
    var loaded := LoadedRegistry(before.data, failing, prefix).value;
    UnregisteredSubsequence(names, loaded);
    if NoDup(loaded) && NoDup(names) {
      ExtendedNoDup(loaded, names);
    }
  }

  /**
   * Storage is written only when new names exist; then the registry is
   * persisted and loads back as the extended list (unless a new field named
   * "keyList" is written over it).
   */
  lemma ReconcilePersistsRegistry(prefix: string, failing: set<string>, before: Snapshot,
                                  names: seq<string>, values: map<string, Default>)
    requires forall k :: k in names ==> k in values
    requires LoadedRegistry(before.data, failing, prefix).Some?
    ensures var r := Reconcile(prefix, failing, before, names, values);
      && (r.remaining == [] ==> r.after.data == before.data)
      && (r.remaining != [] && RegistryKey(prefix) !in failing
          && (r.outcome == DefaultRejected || "keyList" !in r.remaining)
          ==> LoadedRegistry(r.after.data, failing, prefix) == Some(r.after.keyList))
  {
    var r := Reconcile(prefix, failing, before, names, values);
    if r.remaining != [] && RegistryKey(prefix) !in failing
       && (r.outcome == DefaultRejected || "keyList" !in r.remaining) {
      SeedRegistry(prefix, failing, before.data, r.after.keyList, r.remaining, values);
    }
  }

  /**
   * restore rejects exactly when a producer of a new name rejects. New names
   * take the value their default settles to, in the container and durably in
   * storage; when a producer rejects, no default reaches the container.
   */
  lemma ReconcileSeedsDefaults(prefix: string, failing: set<string>, before: Snapshot,
                               names: seq<string>, values: map<string, Default>)
    requires forall k :: k in names ==> k in values
    requires LoadedRegistry(before.data, failing, prefix).Some?
    ensures var loaded := LoadedRegistry(before.data, failing, prefix).value;
            var r := Reconcile(prefix, failing, before, names, values);
      && (r.outcome == DefaultRejected <==> Rejects(r.remaining, values))
      && (r.outcome == Restored ==>
            forall k :: k in r.remaining ==>
              && k in r.after.state && r.after.state[k] == SettledValue(values[k])
              && (FieldKey(prefix, k) !in failing ==> Fetch(r.after.data, failing, FieldKey(prefix, k)) == SettledValue(values[k])))
      && (r.outcome == DefaultRejected ==>
            r.after.state == before.state + RestoredValues(before.data, failing, prefix, loaded))
  {
    var r := Reconcile(prefix, failing, before, names, values);
    if r.outcome == Restored {
      forall k | k in r.remaining
        ensures k in r.after.state && r.after.state[k] == SettledValue(values[k])
        ensures FieldKey(prefix, k) !in failing ==> Fetch(r.after.data, failing, FieldKey(prefix, k)) == SettledValue(values[k])
      {
        assert k in Resolved(r.remaining, values);
        if FieldKey(prefix, k) !in failing {
          SeedReadBack(prefix, failing, before.data, r.after.keyList, r.remaining, values, k);
        }
      }
    }
  }

  /** The fields of a restore that found a loadable registry. */
  lemma ReconcileLoaded(prefix: string, failing: set<string>, before: Snapshot,
                        names: seq<string>, values: map<string, Default>, loaded: seq<string>)
    requires forall k :: k in names ==> k in values
    requires LoadedRegistry(before.data, failing, prefix) == Some(loaded)
    ensures var remaining := Unregistered(names, loaded);
            var registry := loaded + remaining;
            var merged := before.state + RestoredValues(before.data, failing, prefix, loaded);
            var rejected := Rejects(remaining, values);
      Reconcile(prefix, failing, before, names, values)
        == Reconciliation(
             if rejected then DefaultRejected else Restored,
             Snapshot(registry, Seed(prefix, failing, before.data, registry, remaining, values),
                      if remaining != [] && !rejected then merged + Resolved(remaining, values) else merged),
             remaining,
             Producers(remaining, values))
  {
  }

  /**
   * After restore, reading every registered field back from storage gives
   * exactly the values restore delivered, provided the instance's keys are
   * healthy and no field is named "keyList".
   */
  lemma ReconcileDurable(prefix: string, failing: set<string>, before: Snapshot,
                         names: seq<string>, values: map<string, Default>)
    requires forall k :: k in names ==> k in values
    requires forall k :: FieldKey(prefix, k) !in failing
    requires LoadedRegistry(before.data, failing, prefix).Some?
    requires "keyList" !in names && "keyList" !in LoadedRegistry(before.data, failing, prefix).value
    requires !Rejects(Unregistered(names, LoadedRegistry(before.data, failing, prefix).value), values)
    ensures var loaded := LoadedRegistry(before.data, failing, prefix).value;
            var r := Reconcile(prefix, failing, before, names, values);
      && LoadedRegistry(r.after.data, failing, prefix) == Some(r.after.keyList)
      && RestoredValues(r.after.data, failing, prefix, r.after.keyList)
           == RestoredValues(before.data, failing, prefix, loaded) + Resolved(r.remaining, values)
  {
    var loaded := LoadedRegistry(before.data, failing, prefix).value;
    ReconcileLoaded(prefix, failing, before, names, values, loaded);
    var newNames := Unregistered(names, loaded);
    SeedDurable(prefix, failing, before.data, loaded, newNames, values);
  }

  /** The store restore leaves holds the loaded fields as they were and the new ones as seeded. */
  lemma SeedDurable(prefix: string, failing: set<string>, data: map<string, string>,
                    loaded: seq<string>, newNames: seq<string>, values: map<string, Default>)
    requires forall k :: k in newNames ==> k in values
    requires forall k :: FieldKey(prefix, k) !in failing
    requires LoadedRegistry(data, failing, prefix) == Some(loaded)
    requires "keyList" !in loaded && "keyList" !in newNames
    requires forall k :: k in newNames ==> k !in loaded
    requires !Rejects(newNames, values)
    ensures var after := Seed(prefix, failing, data, loaded + newNames, newNames, values);
      && LoadedRegistry(after, failing, prefix) == Some(loaded + newNames)
      && RestoredValues(after, failing, prefix, loaded + newNames)
           == RestoredValues(data, failing, prefix, loaded) + Resolved(newNames, values)
  {
    var registry := loaded + newNames;
    var after := Seed(prefix, failing, data, registry, newNames, values);
    FieldKeyIsRegistryKeyIff(prefix, "keyList");
    if newNames != [] {
      SeedRegistry(prefix, failing, data, registry, newNames, values);
    } else {
      assert registry == loaded;
    }
    var rhs := RestoredValues(data, failing, prefix, loaded) + Resolved(newNames, values);
    forall k | k in registry ensures Fetch(after, failing, FieldKey(prefix, k)) == rhs[k] {
      DurableAt(prefix, failing, data, loaded, newNames, values, k);
    }
    RestoredValuesEqual(after, failing, prefix, registry, rhs);
  }

  /** RestoredValues is determined by the reads of the registered fields. */
  lemma RestoredValuesEqual(data: map<string, string>, failing: set<string>, prefix: string,
                            registry: seq<string>, m: map<string, Value>)
    requires forall k :: k in m <==> k in registry
    requires forall k :: k in registry ==> Fetch(data, failing, FieldKey(prefix, k)) == m[k]
    ensures RestoredValues(data, failing, prefix, registry) == m
  {
  }

  lemma DurableAt(prefix: string, failing: set<string>, data: map<string, string>,
                  loaded: seq<string>, newNames: seq<string>, values: map<string, Default>, field: string)
    requires forall k :: k in newNames ==> k in values
    requires forall k :: FieldKey(prefix, k) !in failing
    requires "keyList" !in loaded && "keyList" !in newNames
    requires forall k :: k in newNames ==> k !in loaded
    requires !Rejects(newNames, values)
    requires field in loaded + newNames
    ensures Fetch(Seed(prefix, failing, data, loaded + newNames, newNames, values), failing, FieldKey(prefix, field))
         == (RestoredValues(data, failing, prefix, loaded) + Resolved(newNames, values))[field]
  {
    var registry := loaded + newNames;
    if field in newNames {
      SeedReadBack(prefix, failing, data, registry, newNames, values, field);
    } else {
      FieldKeyIsRegistryKeyIff(prefix, field);
      forall n | n in newNames ensures FieldKey(prefix, field) != FieldKey(prefix, n) {
        FieldKeyInjective(prefix, field, n);
      }
      SeedElsewhere(prefix, failing, data, registry, newNames, values, FieldKey(prefix, field));
    }
  }

  /**
   * restore is idempotent: a second restore with the same defaults finds
   * every name registered, calls no producer, writes nothing and leaves the
   * registry and the state as the first left them.
   */
  lemma ReconcileIdempotent(prefix: string, failing: set<string>, before: Snapshot,
                            names: seq<string>, values: map<string, Default>)
    requires forall k :: k in names ==> k in values
    requires forall k :: FieldKey(prefix, k) !in failing
    requires LoadedRegistry(before.data, failing, prefix).Some?
    requires "keyList" !in names && "keyList" !in LoadedRegistry(before.data, failing, prefix).value
    requires !Rejects(Unregistered(names, LoadedRegistry(before.data, failing, prefix).value), values)
    ensures var first := Reconcile(prefix, failing, before, names, values);
            var second := Reconcile(prefix, failing, first.after, names, values);
      && second.outcome == Restored
      && second.remaining == [] && second.invoked == []
      && second.after == first.after
  {
    var loaded := LoadedRegistry(before.data, failing, prefix).value;
    var first := Reconcile(prefix, failing, before, names, values);
    ReconcileLoaded(prefix, failing, before, names, values, loaded);
    ReconcileDurable(prefix, failing, before, names, values);
    var restored := RestoredValues(before.data, failing, prefix, loaded);
    var seeded := Resolved(first.remaining, values);
    assert forall x :: x in names ==> x in first.after.keyList;
    if first.remaining == [] {
      assert seeded == map[];
    }
    IdempotentState(before.state, restored, seeded, first.after.state, first.remaining != []);
    ReconcileFixpoint(prefix, failing, first.after, names, values);
  }

  /**
   * A restore that finds every name registered, the registry stored as the
   * instance holds it and the state already holding the stored values
   * changes nothing.
   */
  lemma ReconcileFixpoint(prefix: string, failing: set<string>, s: Snapshot,
                          names: seq<string>, values: map<string, Default>)
    requires forall k :: k in names ==> k in values
    requires LoadedRegistry(s.data, failing, prefix) == Some(s.keyList)
    requires forall x :: x in names ==> x in s.keyList
    requires s.state + RestoredValues(s.data, failing, prefix, s.keyList) == s.state
    ensures var r := Reconcile(prefix, failing, s, names, values);
      && r.outcome == Restored && r.remaining == [] && r.invoked == [] && r.after == s
  {
    ReconcileLoaded(prefix, failing, s, names, values, s.keyList);
    var none := Unregistered(names, s.keyList);
    assert none == [] by {
      forall x | x in none ensures false {
      }
    }
    assert !Rejects(none, values);
    assert s.keyList + none == s.keyList;
  }

  /** Merging the values already merged again changes nothing. */
  lemma IdempotentState(state: map<string, Value>, restored: map<string, Value>, seeded: map<string, Value>,
                        after: map<string, Value>, seededUsed: bool)
    requires after == (if seededUsed then state + restored + seeded else state + restored)
    requires !seededUsed ==> seeded == map[]
    ensures after + (restored + seeded) == after
  {
  }

  /**
   * A value setState writes for a registered field is what a fresh instance
   * sharing the namespace gets for that field from restore, whatever its
   * defaults say.
   */
  lemma SetStateThenRestore(prefix: string, failing: set<string>, data: map<string, string>,
                            registry: seq<string>, obj: map<string, Value>, field: string,
                            names: seq<string>, values: map<string, Default>)
    requires forall k :: k in names ==> k in values
    requires LoadedRegistry(data, failing, prefix) == Some(registry)
    requires "keyList" !in registry
    requires field in obj && field in registry && FieldKey(prefix, field) !in failing
    ensures var written := WriteThrough(data, failing, prefix, registry, obj);
            var r := Reconcile(prefix, failing, Snapshot([], written, map[]), names, values);
      && r.outcome != MalformedRegistry
      && field in r.after.state && r.after.state[field] == obj[field]
  {
    var written := WriteThrough(data, failing, prefix, registry, obj);
    WriteThroughKeepsRegistry(data, failing, prefix, registry, obj);
    assert LoadedRegistry(written, failing, prefix) == Some(registry);
    ReconcileSkipsRegisteredDefaults(prefix, failing, Snapshot([], written, map[]), names, values);
    WriteThroughReadBack(data, failing, prefix, registry, obj, field);
  }
}
