/**
 * What the component's operations do to storage and to the state
 * container, as functions of the state before the call, and the properties
 * the component promises about them.
 *
 * The asynchronous operations run in one fixed order here (issue order).
 * The writes of one call go to distinct keys, except when a state field is
 * named "keyList" (see FieldKeyIsRegistryKeyIff), so the order in which the
 * promises settle does not change the resulting maps.
 */
module Protocol {
  import opened Wrappers
  import opened Json
  import opened AsyncStorage
  import opened Registry

  // ---------------------------------------------------------------------
  // get and put

  /**
   * get(key): the stored text, parsed. A rejected read and an unparsable
   * text are caught and give null; a missing key gives null because
   * JSON.parse(null) is null.
   */
  function Fetch(data: map<string, string>, failing: set<string>, key: string): (v: Value)
    ensures key in failing || key !in data ==> v == Null
    ensures key !in failing && key in data && Decode(data[key]).None? ==> v == Null
    ensures key !in failing && key in data && Decode(data[key]).Some? ==> v == Decode(data[key]).value
  {
    match Lookup(data, failing, key)
    case Rejected => Null
    case Missing => Null
    case Item(text) =>
      match Decode(text)
      case None => Null
      case Some(v) => v
  }

  /** The text put(key, value) hands to setItem: strings as they are, anything else stringified. */
  function PutText(value: Value): (text: string)
    ensures value.Str? ==> text == value.s
    ensures !value.Str? ==> Decode(text) == Some(value)
  {
    if value.Str? then value.s else DecodeEncode(value); Encode(value)
  }

  /** A value stored in encoded form under a healthy key is read back unchanged. */
  lemma FetchWritten(data: map<string, string>, failing: set<string>, key: string, v: Value)
    requires key !in failing
    ensures Fetch(Written(data, failing, key, Encode(v)), failing, key) == v
  {
    DecodeEncode(v);
  }

  /** The registry as the instance reads it back: get(keyListKey) || []. */
  function LoadedRegistry(data: map<string, string>, failing: set<string>, prefix: string): Option<seq<string>> {
    LoadRegistry(Fetch(data, failing, RegistryKey(prefix)))
  }

  /** What put(keyListKey, keyList) stores. */
  function RegistryText(registry: seq<string>): string {
    PutText(RegistryValue(registry))
  }

  /** A persisted registry is loaded back as the same list; an unreadable one as the empty list. */
  lemma RegistryRoundTrip(data: map<string, string>, failing: set<string>, prefix: string, registry: seq<string>)
    ensures RegistryKey(prefix) !in failing ==>
      LoadedRegistry(Written(data, failing, RegistryKey(prefix), RegistryText(registry)), failing, prefix) == Some(registry)
    ensures RegistryKey(prefix) in failing ==> LoadedRegistry(data, failing, prefix) == Some([])
  {
    if RegistryKey(prefix) !in failing {
      FetchWritten(data, failing, RegistryKey(prefix), RegistryValue(registry));
      LoadRegistryValue(registry);
    }
  }

  // ---------------------------------------------------------------------
  // setState: write-through

  /**
   * The store after setState(obj): every field of obj that is in the
   * registry is stored, as JSON.stringify(obj[field]), under its field key;
   * nothing else is written.
   */
  function WriteThrough(data: map<string, string>, failing: set<string>, prefix: string,
                        registry: seq<string>, obj: map<string, Value>): map<string, string>
  {
    FieldKeysInjective(prefix);
    data + Writes(failing, prefix, registry, obj)
  }

  /** The field-key writes of setState(obj), one per registered field of obj on a healthy key. */
  function Writes(failing: set<string>, prefix: string, registry: seq<string>, obj: map<string, Value>): map<string, string>
  {
    FieldKeysInjective(prefix);
    map k | k in obj && k in registry && FieldKey(prefix, k) !in failing :: FieldKey(prefix, k) := Encode(obj[k])
  }

  /** What the puts of setState(obj) resolve to: one per registered field of obj, true when setItem succeeded. */
  function PutOutcomes(failing: set<string>, prefix: string, registry: seq<string>, obj: map<string, Value>): (r: map<string, bool>)
    ensures forall k :: k in r <==> k in obj && k in registry
  {
    map k | k in obj && k in registry :: FieldKey(prefix, k) !in failing
  }

  /** A put resolved to true exactly when its field now reads back as the stored JSON text. */
  lemma PutOutcomesReadBack(data: map<string, string>, failing: set<string>, prefix: string,
                            registry: seq<string>, obj: map<string, Value>, field: string)
    requires field in obj && field in registry
    ensures PutOutcomes(failing, prefix, registry, obj)[field]
        <==> Lookup(WriteThrough(data, failing, prefix, registry, obj), failing, FieldKey(prefix, field)) == Item(Encode(obj[field]))
  {
    var key := FieldKey(prefix, field);
    if key !in failing {
      var d := WriteThrough(data, failing, prefix, registry, obj);
      assert d[key] == Encode(obj[field]) by {
        forall k | k in obj && k in registry && FieldKey(prefix, k) == key ensures k == field {
          FieldKeyInjective(prefix, k, field);
        }
      }
    }
  }

  /** One more field put: the loop step of setState's results. */
  lemma PutOutcomesStep(failing: set<string>, prefix: string, registry: seq<string>, obj: map<string, Value>,
                        field: string, v: Value)
    requires field !in obj
    ensures PutOutcomes(failing, prefix, registry, obj[field := v])
         == if field in registry then PutOutcomes(failing, prefix, registry, obj)[field := FieldKey(prefix, field) !in failing]
            else PutOutcomes(failing, prefix, registry, obj)
  {
    var after := PutOutcomes(failing, prefix, registry, obj[field := v]);
    var before := PutOutcomes(failing, prefix, registry, obj);
    if field in registry {
      assert after.Keys == before.Keys + {field};
    } else {
      assert after.Keys == before.Keys;
    }
  }

  /** A registered field written through a healthy key is read back as the value setState was given. */
  lemma WriteThroughReadBack(data: map<string, string>, failing: set<string>, prefix: string,
                             registry: seq<string>, obj: map<string, Value>, field: string)
    requires field in obj && field in registry && FieldKey(prefix, field) !in failing
    ensures Fetch(WriteThrough(data, failing, prefix, registry, obj), failing, FieldKey(prefix, field)) == obj[field]
  {
    var key := FieldKey(prefix, field);
    var d := WriteThrough(data, failing, prefix, registry, obj);
    assert d[key] == Encode(obj[field]) by {
      forall k | k in obj && k in registry && FieldKey(prefix, k) == key ensures k == field {
        FieldKeyInjective(prefix, k, field);
      }
    }
    DecodeEncode(obj[field]);
  }

  /** A key that is not the field key of a registered field of obj is left as it was. */
  lemma WriteThroughElsewhere(data: map<string, string>, failing: set<string>, prefix: string,
                              registry: seq<string>, obj: map<string, Value>, key: string)
    requires forall k :: k in obj && k in registry ==> FieldKey(prefix, k) != key
    ensures Lookup(WriteThrough(data, failing, prefix, registry, obj), failing, key) == Lookup(data, failing, key)
  {
  }

  /** Fields outside the registry never reach storage. */
  lemma WriteThroughSkipsUnregistered(data: map<string, string>, failing: set<string>, prefix: string,
                                      registry: seq<string>, obj: map<string, Value>, field: string)
    requires field !in registry
    ensures Lookup(WriteThrough(data, failing, prefix, registry, obj), failing, FieldKey(prefix, field))
         == Lookup(data, failing, FieldKey(prefix, field))
  {
    forall k | k in obj && k in registry ensures FieldKey(prefix, k) != FieldKey(prefix, field) {
      FieldKeyInjective(prefix, k, field);
    }
    WriteThroughElsewhere(data, failing, prefix, registry, obj, FieldKey(prefix, field));
  }

  /** setState leaves the stored registry alone unless it writes a registered field named "keyList". */
  lemma WriteThroughKeepsRegistry(data: map<string, string>, failing: set<string>, prefix: string,
                                  registry: seq<string>, obj: map<string, Value>)
    requires "keyList" !in obj || "keyList" !in registry
    ensures Lookup(WriteThrough(data, failing, prefix, registry, obj), failing, RegistryKey(prefix))
         == Lookup(data, failing, RegistryKey(prefix))
  {
    forall k | k in obj && k in registry ensures FieldKey(prefix, k) != RegistryKey(prefix) {
      FieldKeyIsRegistryKeyIff(prefix, k);
    }
    WriteThroughElsewhere(data, failing, prefix, registry, obj, RegistryKey(prefix));
  }

  /** One more field written: the loop step of setState. */
  lemma WriteThroughStep(data: map<string, string>, failing: set<string>, prefix: string,
                         registry: seq<string>, obj: map<string, Value>, field: string, v: Value)
    requires field !in obj
    ensures field in registry ==>
      WriteThrough(data, failing, prefix, registry, obj[field := v])
        == Written(WriteThrough(data, failing, prefix, registry, obj), failing, FieldKey(prefix, field), Encode(v))
    ensures field !in registry ==>
      WriteThrough(data, failing, prefix, registry, obj[field := v]) == WriteThrough(data, failing, prefix, registry, obj)
  {
    var key := FieldKey(prefix, field);
    var before := Writes(failing, prefix, registry, obj);
    assert WriteThrough(data, failing, prefix, registry, obj) == data + before;
    if field in registry && key !in failing {
      WritesAdd(failing, prefix, registry, obj, field, v);
      MergeUpdate(data, before, key, Encode(v));
    } else {
      WritesSkip(failing, prefix, registry, obj, field, v);
    }
  }

  lemma MergeUpdate(data: map<string, string>, m: map<string, string>, key: string, text: string)
    ensures data + m[key := text] == (data + m)[key := text]
  {
  }

  lemma WritesAdd(failing: set<string>, prefix: string, registry: seq<string>, obj: map<string, Value>, field: string, v: Value)
    requires field !in obj && field in registry && FieldKey(prefix, field) !in failing
    ensures Writes(failing, prefix, registry, obj[field := v])
         == Writes(failing, prefix, registry, obj)[FieldKey(prefix, field) := Encode(v)]
  {
    var before := Writes(failing, prefix, registry, obj);
    var after := Writes(failing, prefix, registry, obj[field := v]);
    var key := FieldKey(prefix, field);
    var expected := before[key := Encode(v)];
    forall x | x in after ensures x in expected && after[x] == expected[x] {
      var f := WrittenField(failing, prefix, registry, obj[field := v], x);
      if f != field {
        FieldKeyInjective(prefix, f, field);
        WritesAt(failing, prefix, registry, obj, f);
      }
    }
    forall x | x in before ensures x in after {
      var f := WrittenField(failing, prefix, registry, obj, x);
      WritesAt(failing, prefix, registry, obj[field := v], f);
    }
    WritesAt(failing, prefix, registry, obj[field := v], field);
    assert after.Keys == expected.Keys;
  }

  /** Which fields setState(obj) writes, and what. */
  lemma WritesAt(failing: set<string>, prefix: string, registry: seq<string>, obj: map<string, Value>, f: string)
    ensures FieldKey(prefix, f) in Writes(failing, prefix, registry, obj)
        <==> f in obj && f in registry && FieldKey(prefix, f) !in failing
    ensures FieldKey(prefix, f) in Writes(failing, prefix, registry, obj)
        ==> Writes(failing, prefix, registry, obj)[FieldKey(prefix, f)] == Encode(obj[f])
  {
    FieldKeysInjective(prefix);
  }

  /** The field behind a key that setState(obj) writes. */
  function WrittenField(failing: set<string>, prefix: string, registry: seq<string>, obj: map<string, Value>, key: string): (f: string)
    requires key in Writes(failing, prefix, registry, obj)
    ensures f in obj && f in registry && FieldKey(prefix, f) == key && FieldKey(prefix, f) !in failing
    ensures Writes(failing, prefix, registry, obj)[key] == Encode(obj[f])
  {
    FieldKeysInjective(prefix);
    var f :| f in obj && f in registry && FieldKey(prefix, f) !in failing && FieldKey(prefix, f) == key; f
  }

  lemma WritesSkip(failing: set<string>, prefix: string, registry: seq<string>, obj: map<string, Value>, field: string, v: Value)
    requires field !in obj && (field !in registry || FieldKey(prefix, field) in failing)
    ensures Writes(failing, prefix, registry, obj[field := v]) == Writes(failing, prefix, registry, obj)
  {
    FieldKeysInjective(prefix);
    var before := Writes(failing, prefix, registry, obj);
    var after := Writes(failing, prefix, registry, obj[field := v]);
    assert after.Keys == before.Keys;
    forall k | k in after ensures after[k] == before[k] {
      var f :| f in obj && f in registry && FieldKey(prefix, f) !in failing && FieldKey(prefix, f) == k;
      assert f != field;
    }
  }
}
