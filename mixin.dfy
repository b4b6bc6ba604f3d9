/**
 * The mixin itself: a component instance whose state is mirrored into the
 * store. Each method runs its asynchronous steps to completion, in the order
 * it issues them, and is proved to leave the instance, the store and the
 * caller's defaults exactly as the functions of Protocol and Restorer say.
 */
module Mixin {
  import opened Wrappers
  import opened Json
  import opened AsyncStorage
  import opened Registry
  import opened Protocol
  import opened Restorer

  /** The defaults object handed to restore: its own keys in order, each with its default. restore deletes from it. */
  class Defaults {
    var names: seq<string>
    var values: map<string, Default>

    /** An object's keys are distinct and are exactly the keys it holds a value for. */
    ghost predicate Valid()
      reads this
    {
      NoDup(names) && forall k :: k in values <==> k in names
    }

    constructor (names: seq<string>, values: map<string, Default>)
      requires NoDup(names) && forall k :: k in values <==> k in names
      ensures Valid()
      ensures this.names == names && this.values == values
    {
      this.names := names;
      this.values := values;
    }

    /** delete defaults[key]. */
    method Delete(key: string)
      requires Valid()
      modifies this
      ensures Valid()
      ensures names == Unregistered(old(names), [key])
      ensures values == old(values) - {key}
    {
      UnregisteredNoDup(names, [key]);
      names := Unregistered(names, [key]);
      values := values - {key};
    }
  }

  class StoredComponent {
    const keyPrefix: string
    const keyListKey: string
    /** The registry: the names of the state fields mirrored into the store. */
    var keyList: seq<string>
    /** The component's state as the state container holds it. */
    var state: map<string, Value>
    const store: Store

    ghost predicate Valid()
      reads this
    {
      keyListKey == RegistryKey(keyPrefix)
    }

    /** The namespace comes from props.storedName, or the class name when that is absent or empty. */
    constructor (storedName: Option<string>, className: string, store: Store, initialState: map<string, Value>)
      ensures Valid()
      ensures keyPrefix == KeyPrefix(InstanceName(storedName, className))
      ensures keyList == [] && state == initialState && this.store == store
    {
      keyPrefix := KeyPrefix(InstanceName(storedName, className));
      keyListKey := RegistryKey(KeyPrefix(InstanceName(storedName, className)));
      keyList := [];
      state := initialState;
      this.store := store;
    }

    /** get(key): the parsed stored value, or null when the read fails, the key is missing or the text does not parse. */
    method Get(key: string) returns (v: Value)
      ensures v == Fetch(store.data, store.failing, key)
    {
      var r := store.GetItem(key);
      match r {
        case Rejected => v := Null;
        case Missing => v := Null;
        case Item(text) =>
          match Decode(text) {
            case None => v := Null;
            case Some(parsed) => v := parsed;
          }
      }
    }

    /** put(key, value): stores strings as they are and anything else stringified; false when setItem fails. */
    method Put(key: string, value: Value) returns (ok: bool)
      modifies store`data
      ensures ok == (key !in store.failing)
      ensures store.data == Written(old(store.data), store.failing, key, PutText(value))
    {
      var text := if value.Str? then value.s else Encode(value);
      ok := store.SetItem(key, text);
    }

    /**
     * addKey(key): a registered name changes nothing and resolves to
     * nothing; a new one is appended and the registry persisted, resolving
     * to put's result.
     */
    method AddKey(key: string) returns (r: Option<bool>)
      requires Valid()
      modifies this`keyList, store`data
      ensures keyList == Register(old(keyList), key)
      ensures key in old(keyList) ==> r == None && store.data == old(store.data)
      ensures key !in old(keyList) ==>
        && r == Some(keyListKey !in store.failing)
        && store.data == Written(old(store.data), store.failing, keyListKey, RegistryText(keyList))
    {
      if key in keyList {
        return None;
      }
      keyList := keyList + [key];
      var ok := Put(keyListKey, RegistryValue(keyList));
      r := Some(ok);
    }

    /**
     * setState(obj): every registered field of obj is put, as
     * JSON.stringify of its value, under its field key; then the whole of
     * obj goes to the state container. `results` holds what each put
     * resolved to.
     */
    method SetState(obj: map<string, Value>) returns (results: map<string, bool>)
      modifies this`state, store`data
      ensures state == old(state) + obj
      ensures store.data == WriteThrough(old(store.data), store.failing, keyPrefix, keyList, obj)
      ensures results == PutOutcomes(store.failing, keyPrefix, keyList, obj)
    {
      results := PutFields(obj);
      state := state + obj;
    }

    /** The puts of setState(obj), one per registered field of obj. */
    method PutFields(obj: map<string, Value>) returns (results: map<string, bool>)
      modifies store`data
      ensures store.data == WriteThrough(old(store.data), store.failing, keyPrefix, keyList, obj)
      ensures results == PutOutcomes(store.failing, keyPrefix, keyList, obj)
    {
      var pending := obj.Keys;
      results := map[];
      ghost var data0 := store.data;
      assert obj - pending == map[];
      while pending != {}
        invariant pending <= obj.Keys
        invariant store.data == WriteThrough(data0, store.failing, keyPrefix, keyList, obj - pending)
        invariant results == PutOutcomes(store.failing, keyPrefix, keyList, obj - pending)
        decreases pending
      {
        var key :| key in pending;
        results := PutField(data0, obj, pending, key, results);
        pending := pending - {key};
      }
      assert obj - pending == obj;
    }

    /** One step of setState: the put of one field of obj, when it is registered. */
    method PutField(ghost data0: map<string, string>, obj: map<string, Value>, ghost pending: set<string>, key: string,
                    results: map<string, bool>)
      returns (results': map<string, bool>)
      requires key in pending && pending <= obj.Keys
      requires store.data == WriteThrough(data0, store.failing, keyPrefix, keyList, obj - pending)
      requires results == PutOutcomes(store.failing, keyPrefix, keyList, obj - pending)
      modifies store`data
      ensures store.data == WriteThrough(data0, store.failing, keyPrefix, keyList, obj - (pending - {key}))
      ensures results' == PutOutcomes(store.failing, keyPrefix, keyList, obj - (pending - {key}))
    {
      var done := obj - (pending - {key});
      assert done == (obj - pending)[key := obj[key]];
      WriteThroughStep(data0, store.failing, keyPrefix, keyList, obj - pending, key, obj[key]);
      PutOutcomesStep(store.failing, keyPrefix, keyList, obj - pending, key, obj[key]);
      if key in keyList {
        var ok := Put(FieldKey(keyPrefix, key), Str(Encode(obj[key])));
        results' := results[key := ok];
      } else {
        results' := results;
      }
    }

    /**
     * restore(defaults): reload the registry; take every registered field's
     * stored value and drop its default; register the names left, persist
     * the registry and set them from their defaults once every producer has
     * settled. Ends in the state Reconcile describes.
     */
    method Restore(defaults: Defaults) returns (outcome: RestoreOutcome, invoked: seq<string>)
      requires Valid() && defaults.Valid()
      modifies this`keyList, this`state, store`data, defaults
      ensures defaults.Valid()
      ensures Reconcile(keyPrefix, store.failing, Snapshot(old(keyList), old(store.data), old(state)),
                        old(defaults.names), old(defaults.values))
           == Reconciliation(outcome, Snapshot(keyList, store.data, state), defaults.names, invoked)
      ensures forall k :: k in defaults.values ==> k in old(defaults.values) && defaults.values[k] == old(defaults.values)[k]
    {
      ghost var before := Snapshot(keyList, store.data, state);
      ghost var names0 := defaults.names;
      ghost var values0 := defaults.values;
      var raw := Get(keyListKey);
      var loadedRegistry := LoadRegistry(raw);
      if loadedRegistry.None? {
        return MalformedRegistry, [];
      }
      keyList := loadedRegistry.value;

      ghost var loaded := keyList;
      var restoredObj := PullBack(defaults);
      if |keyList| > 0 {
        state := state + restoredObj;
      } else {
        assert restoredObj == map[];
      }
      ghost var merged := before.state + RestoredValues(before.data, store.failing, keyPrefix, loaded);
      assert state == merged;

      var newKeys := defaults.names;
      var defaultsObj, rejected, called := ResolveDefaults(defaults);
      ResolvedAgree(newKeys, defaults.values, values0);
      invoked := called;

      Establish(newKeys, defaultsObj, rejected, values0);
      ReconcileLoaded(keyPrefix, store.failing, before, names0, values0, loaded);
      outcome := if rejected then DefaultRejected else Restored;
    }

    /**
     * The last part of restore: with new names, the registry is extended
     * and persisted, and once every producer has resolved the defaults go
     * through setState.
     */
    method Establish(newKeys: seq<string>, defaultsObj: map<string, Value>, rejected: bool, ghost values: map<string, Default>)
      requires Valid()
      requires forall k :: k in newKeys ==> k in values
      requires defaultsObj == Resolved(newKeys, values) && rejected == Rejects(newKeys, values)
      modifies this`keyList, this`state, store`data
      ensures keyList == old(keyList) + newKeys
      ensures store.data == Seed(keyPrefix, store.failing, old(store.data), keyList, newKeys, values)
      ensures state == if newKeys != [] && !rejected then old(state) + defaultsObj else old(state)
    {
      if |newKeys| > 0 {
        keyList := keyList + newKeys;
        var _ := Put(keyListKey, RegistryValue(keyList));
        if !rejected {
          var _ := SetState(defaultsObj);
        }
      } else {
        assert keyList + newKeys == keyList;
      }
    }

    /**
     * The first pass of restore: every registered name is deleted from the
     * defaults and its field read back, null included.
     */
    method PullBack(defaults: Defaults) returns (restoredObj: map<string, Value>)
      requires defaults.Valid()
      modifies defaults
      ensures defaults.Valid()
      ensures defaults.names == Unregistered(old(defaults.names), keyList)
      ensures forall k :: k in defaults.values ==> k in old(defaults.values) && defaults.values[k] == old(defaults.values)[k]
      ensures restoredObj == RestoredValues(store.data, store.failing, keyPrefix, keyList)
    {
      restoredObj := map[];
      var i := 0;
      UnregisteredNone(defaults.names, []);
      while i < |keyList|
        invariant 0 <= i <= |keyList|
        invariant defaults.Valid()
        invariant defaults.names == Unregistered(old(defaults.names), keyList[..i])
        invariant forall k :: k in defaults.values ==> k in old(defaults.values) && defaults.values[k] == old(defaults.values)[k]
        invariant restoredObj == RestoredValues(store.data, store.failing, keyPrefix, keyList[..i])
      {
        restoredObj := PullField(defaults, old(defaults.names), old(defaults.values), i, restoredObj);
        i := i + 1;
      }
      assert keyList[..i] == keyList;
    }

    /** One step of the first pass: keyList[i] loses its default and is read back. */
    method PullField(defaults: Defaults, ghost names0: seq<string>, ghost values0: map<string, Default>, i: nat,
                     restoredObj: map<string, Value>)
      returns (restoredObj': map<string, Value>)
      requires i < |keyList| && defaults.Valid()
      requires defaults.names == Unregistered(names0, keyList[..i])
      requires forall k :: k in defaults.values ==> k in values0 && defaults.values[k] == values0[k]
      requires restoredObj == RestoredValues(store.data, store.failing, keyPrefix, keyList[..i])
      modifies defaults
      ensures defaults.Valid()
      ensures defaults.names == Unregistered(names0, keyList[..i + 1])
      ensures forall k :: k in defaults.values ==> k in values0 && defaults.values[k] == values0[k]
      ensures restoredObj' == RestoredValues(store.data, store.failing, keyPrefix, keyList[..i + 1])
    {
      var key := keyList[i];
      assert keyList[..i + 1] == keyList[..i] + [key];
      UnregisteredStep(names0, keyList[..i], key);
      RestoredValuesStep(store.data, store.failing, keyPrefix, keyList[..i], key);
      defaults.Delete(key);
      var value := Get(FieldKey(keyPrefix, key));
      restoredObj' := restoredObj[key := value];
    }

    /**
     * The second pass of restore: literals are taken as they are, producers
     * are called in order and their values taken once they resolve; one
     * rejection rejects them all.
     */
    method ResolveDefaults(defaults: Defaults) returns (defaultsObj: map<string, Value>, rejected: bool, invoked: seq<string>)
      requires defaults.Valid()
      ensures defaultsObj == Resolved(defaults.names, defaults.values)
      ensures rejected == Rejects(defaults.names, defaults.values)
      ensures invoked == Producers(defaults.names, defaults.values)
    {
      var newKeys := defaults.names;
      var values := defaults.values;
      defaultsObj := map[];
      rejected := false;
      invoked := [];
      var j := 0;
      while j < |newKeys|
        invariant 0 <= j <= |newKeys|
        invariant defaultsObj == Resolved(newKeys[..j], values)
        invariant rejected == Rejects(newKeys[..j], values)
        invariant invoked == Producers(newKeys[..j], values)
      {
        defaultsObj, rejected, invoked := TakeDefault(newKeys, j, values, defaultsObj, rejected, invoked);
        j := j + 1;
      }
      assert newKeys[..j] == newKeys;
    }
  }

  /**
   * One step of restore's second pass: a literal is taken as it is; a
   * producer is called and its value taken once it resolves, or its
   * rejection recorded.
   */
  method TakeDefault(names: seq<string>, j: nat, values: map<string, Default>,
                     defaultsObj: map<string, Value>, rejected: bool, invoked: seq<string>)
    returns (defaultsObj': map<string, Value>, rejected': bool, invoked': seq<string>)
    requires j < |names| && forall k :: k in names ==> k in values
    requires defaultsObj == Resolved(names[..j], values)
    requires rejected == Rejects(names[..j], values)
    requires invoked == Producers(names[..j], values)
    ensures defaultsObj' == Resolved(names[..j + 1], values)
    ensures rejected' == Rejects(names[..j + 1], values)
    ensures invoked' == Producers(names[..j + 1], values)
  {
    var key := names[j];
    DefaultsStep(names, j, values);
    defaultsObj', rejected', invoked' := defaultsObj, rejected, invoked;
    match values[key] {
      case Literal(value) =>
        defaultsObj' := defaultsObj[key := value];
      case Producer(settled) =>
        invoked' := invoked + [key];
        match settled {
          case Some(value) => defaultsObj' := defaultsObj[key := value];
          case None => rejected' := true;
        }
    }
  }

  /** Resolving names against two maps that agree on them gives the same results. */
  lemma ResolvedAgree(names: seq<string>, a: map<string, Default>, b: map<string, Default>)
    requires forall k :: k in names ==> k in a && k in b && a[k] == b[k]
    ensures Resolved(names, a) == Resolved(names, b)
    ensures Rejects(names, a) == Rejects(names, b)
    ensures Producers(names, a) == Producers(names, b)
  {
    ProducersAgree(names, a, b);
  }

  lemma {:induction false} ProducersAgree(names: seq<string>, a: map<string, Default>, b: map<string, Default>)
    requires forall k :: k in names ==> k in a && k in b && a[k] == b[k]
    ensures Producers(names, a) == Producers(names, b)
  {
    if names != [] {
      ProducersAgree(names[..|names| - 1], a, b);
    }
  }
}
