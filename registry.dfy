/**
 * The storage key layout of one component instance and its key registry
 * ("keyList"): the ordered, duplicate-free list of the names of the state
 * fields that are mirrored into storage.
 */
module Registry {
  import opened Wrappers
  import opened Json

  // ---------------------------------------------------------------------
  // Key layout

  /** props.storedName when it is a non-empty string, the component's class name otherwise. */
  function InstanceName(storedName: Option<string>, className: string): (name: string)
    ensures storedName.Some? && storedName.value != "" ==> name == storedName.value
    ensures storedName.None? || storedName.value == "" ==> name == className
  {
    if storedName.Some? && storedName.value != "" then storedName.value else className
  }

  /** The namespace of an instance: '@' + name + ':'. */
  function KeyPrefix(name: string): string {
    "@" + name + ":"
  }

  /** Where the registry itself is stored. */
  function RegistryKey(prefix: string): string {
    prefix + "keyList"
  }

  /** Where the value of state field `field` is stored. */
  function FieldKey(prefix: string, field: string): string {
    prefix + field
  }

  lemma FieldKeyInjective(prefix: string, a: string, b: string)
    ensures FieldKey(prefix, a) == FieldKey(prefix, b) <==> a == b
  {
    if FieldKey(prefix, a) == FieldKey(prefix, b) {
      assert a == FieldKey(prefix, a)[|prefix|..];
      assert b == FieldKey(prefix, b)[|prefix|..];
    }
  }

  lemma FieldKeysInjective(prefix: string)
    ensures forall a, b :: FieldKey(prefix, a) == FieldKey(prefix, b) ==> a == b
  {
    forall a, b ensures FieldKey(prefix, a) == FieldKey(prefix, b) ==> a == b {
      FieldKeyInjective(prefix, a, b);
    }
  }

  /** A field named "keyList" is stored under the registry's own key, and no other field is. */
  lemma FieldKeyIsRegistryKeyIff(prefix: string, field: string)
    ensures FieldKey(prefix, field) == RegistryKey(prefix) <==> field == "keyList"
  {
    FieldKeyInjective(prefix, field, "keyList");
  }

  /**
   * Two instances whose names differ and contain no ':' never share a
   * storage key. (With a ':' in a name they can: "@a:" + "b:x" is
   * "@a:b:" + "x".)
   */
  lemma {:induction false} NamespacesDisjoint(name1: string, name2: string, field1: string, field2: string)
    requires name1 != name2
    requires ':' !in name1 && ':' !in name2
    ensures FieldKey(KeyPrefix(name1), field1) != FieldKey(KeyPrefix(name2), field2)
  {
    if |name1| <= |name2| {
      PrefixesDiffer(name1, name2, field1, field2);
    } else {
      PrefixesDiffer(name2, name1, field2, field1);
    }
  }

  lemma PrefixesDiffer(short: string, long: string, a: string, b: string)
    requires short != long && |short| <= |long|
    requires ':' !in short && ':' !in long
    ensures FieldKey(KeyPrefix(short), a) != FieldKey(KeyPrefix(long), b)
  {
    var s1 := FieldKey(KeyPrefix(short), a);
    var s2 := FieldKey(KeyPrefix(long), b);
    assert s1 == ['@'] + short + [':'] + a;
    assert s2 == ['@'] + long + [':'] + b;
    if |short| == |long| {
      assert s1[1..1 + |short|] == short;
      assert s2[1..1 + |long|] == long;
    } else {
      assert s1[1 + |short|] == ':';
      assert s2[1 + |short|] == long[|short|];
    }
  }

  // ---------------------------------------------------------------------
  // Registry contents

  predicate NoDup(s: seq<string>) {
    forall i, j :: 0 <= i < j < |s| ==> s[i] != s[j]
  }

  /** addKey: a name not yet registered is appended at the end; a registered one changes nothing. */
  function Register(registry: seq<string>, name: string): (r: seq<string>)
    ensures name in r
    ensures forall x :: x in r <==> x in registry || x == name
    ensures |registry| <= |r| <= |registry| + 1 && r[..|registry|] == registry
    ensures NoDup(registry) ==> NoDup(r)
    ensures name in registry ==> r == registry
    ensures name !in registry ==> r == registry + [name]
  {
    if name in registry then registry else registry + [name]
  }

  /** Registering twice is registering once. */
  lemma RegisterIdempotent(registry: seq<string>, name: string)
    ensures Register(Register(registry, name), name) == Register(registry, name)
  {
  }

  /** The names of `names` that are not in `registry`, in their order in `names`. */
  function Unregistered(names: seq<string>, registry: seq<string>): (r: seq<string>)
    ensures forall x :: x in r <==> x in names && x !in registry
    ensures |r| <= |names|
  {
    if names == [] then []
    else if names[0] in registry then Unregistered(names[1..], registry)
    else [names[0]] + Unregistered(names[1..], registry)
  }

  /** a is b with some elements left out, the rest in the same order. */
  predicate Subsequence(a: seq<string>, b: seq<string>)
    decreases |b|
  {
    a == [] || (b != [] && if a[0] == b[0] then Subsequence(a[1..], b[1..]) else Subsequence(a, b[1..]))
  }

  /** The filter keeps the order of the names it keeps. */
  lemma {:induction false} UnregisteredSubsequence(names: seq<string>, registry: seq<string>)
    ensures Subsequence(Unregistered(names, registry), names)
  {
    if names != [] {
      UnregisteredSubsequence(names[1..], registry);
      var r := Unregistered(names, registry);
      if names[0] !in registry {
        assert r[0] == names[0] && r[1..] == Unregistered(names[1..], registry);
      } else if r != [] {
        assert r[0] != names[0];
      }
    }
  }

  /** Names none of which is registered pass through unchanged. */
  lemma {:induction false} UnregisteredNone(names: seq<string>, registry: seq<string>)
    requires forall x :: x in names ==> x !in registry
    ensures Unregistered(names, registry) == names
  {
    if names != [] {
      UnregisteredNone(names[1..], registry);
    }
  }

  lemma {:induction false} UnregisteredNoDup(names: seq<string>, registry: seq<string>)
    requires NoDup(names)
    ensures NoDup(Unregistered(names, registry))
  {
    if names != [] {
      assert NoDup(names[1..]);
      UnregisteredNoDup(names[1..], registry);
    }
  }

  /** Filtering out one more name is filtering against the registry extended by it. */
  lemma {:induction false} UnregisteredStep(names: seq<string>, registry: seq<string>, name: string)
    ensures Unregistered(Unregistered(names, registry), [name]) == Unregistered(names, registry + [name])
  {
    if names != [] {
      UnregisteredStep(names[1..], registry, name);
    }
  }

  /** The registry extended by the unregistered names has no duplicates when neither part had any. */
  lemma ExtendedNoDup(registry: seq<string>, names: seq<string>)
    requires NoDup(registry) && NoDup(names)
    ensures NoDup(registry + Unregistered(names, registry))
  {
    var added := Unregistered(names, registry);
    UnregisteredNoDup(names, registry);
    var r := registry + added;
    forall i, j | 0 <= i < j < |r| ensures r[i] != r[j] {
      if j >= |registry| && i < |registry| {
        assert r[j] in added;
        assert r[i] in registry;
      } else if i >= |registry| {
        assert r[i] == added[i - |registry|] && r[j] == added[j - |registry|];
      }
    }
  }

  // ---------------------------------------------------------------------
  // Registry encoding

  /** The registry as the array value put() stringifies. */
  function RegistryValue(registry: seq<string>): (v: Value)
    ensures v.Arr? && |v.items| == |registry|
    ensures forall i :: 0 <= i < |registry| ==> v.items[i] == Str(registry[i])
  {
    Arr(seq(|registry|, i requires 0 <= i < |registry| => Str(registry[i])))
  }

  /** JavaScript's falsy values among the modelled ones. */
  predicate Falsy(v: Value) {
    v == Null || v == Bool(false) || v == Num(0) || v == Str("")
  }

  /**
   * `get(keyListKey) || []`: a falsy value (a missing or unreadable
   * registry reads as null) gives the empty registry, an array of strings
   * gives its strings, and any other value is not a registry (restore then
   * fails, as forEach does not exist on it).
   */
  function LoadRegistry(v: Value): (r: Option<seq<string>>)
    ensures Falsy(v) ==> r == Some([])
    ensures r.Some? && !Falsy(v) ==> v == RegistryValue(r.value)
  {
    if Falsy(v) then Some([])
    else if v.Arr? && forall i :: 0 <= i < |v.items| ==> v.items[i].Str? then
      Some(seq(|v.items|, i requires 0 <= i < |v.items| => v.items[i].s))
    else None
  }

  /** A persisted registry loads back as the same list. */
  lemma LoadRegistryValue(registry: seq<string>)
    ensures LoadRegistry(RegistryValue(registry)) == Some(registry)
  {
    var v := RegistryValue(registry);
    assert !Falsy(v);
    var r := LoadRegistry(v).value;
    assert |r| == |registry|;
    assert forall i :: 0 <= i < |r| ==> r[i] == registry[i];
    assert r == registry;
  }
}
