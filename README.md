# storedComponent, verified in Dafny

`storedComponent.js` is a mixin for React Native components. It mirrors chosen
fields of a component's state into AsyncStorage, a string key-value store, and
brings them back when the component starts. This project models the mixin's
core in Dafny and proves what it promises:

- **Key layout.** An instance's namespace is `'@' + (props.storedName || class name) + ':'`.
  Field `f` is stored under `namespace + f`. The registry of mirrored field
  names (`keyList`) is stored under `namespace + "keyList"`.
- **`addKey(key)`** appends a new name to the registry and persists it. A name
  that is already registered changes nothing.
- **`restore(defaults)`** reloads the registry (`get(...) || []`). Every
  registered name is deleted from the caller's `defaults`, and its stored value
  goes to the state container as `get` returns it, null included. The names left
  in `defaults` are appended to the registry, which is then persisted. Their
  defaults are resolved: a literal as it is, a function by calling it and
  awaiting its promise. Once all have settled, the defaults go through the
  mixin's `setState`.
- **`setState(obj)`** puts every field of `obj` that is in the registry, as
  `JSON.stringify(obj[field])`, under its field key. It then hands all of `obj`
  to the state container.
- **`get(key)`** returns the parsed stored value. It returns null when the key
  is missing, the read fails or the text does not parse.
- **`put(key, value)`** stores a string as it is and stringifies anything else.
  It returns false when the store rejects the write, true otherwise.

Modules, one per file:

- `Wrappers`: the `Option` type.
- `Json`: the values the component stores and a JSON encoder/decoder for them,
  with the round trip `Decode(Encode(v)) == Some(v)` proved for every value.
- `AsyncStorage`: the external store. It is a class holding the stored texts and
  a fault oracle: the set of keys whose `getItem`/`setItem` calls reject.
- `Registry`: the key layout, the registry as a duplicate-free list, and its
  stored form.
- `Protocol`: `get`, `put` and the write-through of `setState`, as functions of
  the store's contents, with their read-back lemmas.
- `Restorer`: `restore` as a function `Reconcile` from the instance before the
  call to the instance after it, and the properties proved about it.
- `Mixin`: the component itself, in the source's imperative form. The class
  `StoredComponent` has the fields `keyPrefix`, `keyListKey`, `keyList` and
  `state`, and a reference to the store. The class `Defaults` is the caller's
  defaults object, which `restore` deletes from. Each method runs its
  asynchronous steps to completion, in the order it issues them. Each method is
  proved to leave the instance, the store and the defaults exactly as the
  specification functions of `Protocol` and `Restorer` say.

The small methods mirror, case for case, the functions that specify them:
`Store.GetItem` and `Store.SetItem` follow `Lookup` and `Written`, and
`StoredComponent.Get` and `StoredComponent.Put` follow `Fetch` and `PutText`.
The functions are what the lemmas speak about; the methods are the source's
imperative form, each tied to its function by its `ensures`.

Definitions without a contract of their own are specified through the lemmas
about them:

- `Registry`: `KeyPrefix`, `RegistryKey` and `FieldKey`.
- `Protocol`: `LoadedRegistry`, `RegistryText`, `WriteThrough` and `Writes`.
- `Json`: `Encode` and `Decode`, which stand for JSON.stringify
  (storedComponent.js:110, 137) and JSON.parse (storedComponent.js:124); their
  property is the round trip `Json.DecodeEncode`.
- `Restorer`: `Seed`, specified by `SeedElsewhere`, `SeedRegistry`,
  `SeedReadBack` and `SeedDurable`, and `Rejects`, the rejection of
  `Promise.all(defaultsQueue)` (storedComponent.js:87-95), whose effect on
  restore's outcome and state is stated in `Restorer.ReconcileSeedsDefaults`.

Behaviour of the code that a reader may not expect, and that the model follows:

- **A registered field is adopted from storage whatever its stored value is.**
  The default is deleted for every registered name (storedComponent.js:40-41),
  and the state receives what `get` returns for the field, null included
  (storedComponent.js:42-46). A field stored as null, missing, unreadable or
  unparsable therefore comes back as null and never falls back to its default.
- **A stored text that does not parse** makes `get` return null, because
  JSON.parse throws and the error is caught (storedComponent.js:121-129).
- **Not every failure is absorbed.** A rejected default producer rejects the
  promise `restore` returns (storedComponent.js:87-95). By then only the
  synchronous steps are certain to have happened: the deletes from `defaults`
  (storedComponent.js:41), the call of every producer (storedComponent.js:68)
  and the extension of `this.keyList` (storedComponent.js:82). The registry `put` (storedComponent.js:84) and the reads of the
  registered fields (storedComponent.js:43-56) have been issued and may complete
  after the rejection. The model runs them to completion and reports the
  outcome as `DefaultRejected`.
- **A stored registry that parses to a truthy non-list** (a number, say) makes
  `restore` throw at `forEach` (storedComponent.js:34-40). The model reports this
  case as `MalformedRegistry`. Only a registry that `get` returns as null or
  another falsy value falls back to the empty registry: a missing key, a
  rejected read, text that does not parse (storedComponent.js:123-129), or text
  that parses to a falsy value.
- **The component has no delete or reset operation.**

## Model

| member | source | states |
|---|---|---|
| `Registry.InstanceName` | storedComponent.js:9 | The namespace name is props.storedName when it is a non-empty string, and the class name when it is absent or empty (an empty string is falsy). |
| `Mixin.StoredComponent.constructor` | storedComponent.js:7-13 | The prefix is `'@' + name + ':'`, the registry key is the prefix followed by `keyList`, and the registry starts empty. |
| `Registry.FieldKeyInjective` | storedComponent.js:110 | Two fields share a storage key exactly when they are the same field. |
| `Registry.FieldKeyIsRegistryKeyIff` | storedComponent.js:11 | A field's key is the registry's own key if and only if the field is named "keyList". |
| `Registry.NamespacesDisjoint` | storedComponent.js:9-11 | Two instances whose names differ and contain no ':' never share a storage key. |
| `Registry.Register` | storedComponent.js:20-25 | addKey's registry: the name is registered afterwards, exactly the old names and the new one are, the old list is kept as a prefix, it grows by at most one, and a duplicate-free registry stays duplicate-free; a registered name leaves the registry as it is, whatever it holds, and a new one is appended at the end. |
| `Registry.RegisterIdempotent` | storedComponent.js:21 | Adding a key twice is adding it once. |
| `Mixin.StoredComponent.AddKey` | storedComponent.js:20-25 | A registered key changes neither the registry nor the store and resolves to nothing; a new key is appended, the registry is stored, and the call resolves to whether the store accepted it. |
| `Registry.Unregistered` | storedComponent.js:40-41 | The names left in the defaults after the registered ones are deleted: exactly the names not in the registry, never more of them. |
| `Registry.UnregisteredSubsequence` | storedComponent.js:64 | The names left keep their order among the defaults. |
| `Registry.UnregisteredStep` | storedComponent.js:41 | Deleting one more registered name is filtering against the registry extended by that name. |
| `Registry.UnregisteredNone` | storedComponent.js:64 | With nothing registered, every default name is left. |
| `Registry.UnregisteredNoDup` | storedComponent.js:64 | The names left have no duplicates when the defaults have none. |
| `Registry.ExtendedNoDup` | storedComponent.js:82 | The loaded registry followed by the names left has no duplicates when neither part has any. |
| `Registry.RegistryValue` | storedComponent.js:24 | The stored form of the registry is an array holding each name as a string, in order. |
| `Registry.LoadRegistry` | storedComponent.js:34 | The registry as restore reads it: a falsy value gives the empty registry; any registry it gives from a truthy value is a list of names that stores back as that same value. |
| `Registry.LoadRegistryValue` | storedComponent.js:34 | A stored registry loads back as the same list. |
| `Json.DecodeEncode` | storedComponent.js:110 | Parsing what JSON.stringify produced gives the original value back. |
| `Json.EncodeInjective` | storedComponent.js:110 | Different values are stringified to different texts. |
| `Json.ParseValueOfEncode` | storedComponent.js:124 | A stringified value followed by the end of the text or array punctuation parses back to that value and leaves the rest. |
| `Json.ParseItemsOfEncode` | storedComponent.js:124 | The elements of a non-empty stringified array parse back to the same elements. |
| `Json.ParseCharsOfEscape` | storedComponent.js:124 | An escaped string body followed by its closing quote parses back to the original string. |
| `Json.ParseNatText` | storedComponent.js:124 | The decimal text of a natural number parses back to it. |
| `Json.NatText` | storedComponent.js:110 | The decimal text of a number is non-empty, all digits, without a leading zero. |
| `AsyncStorage.Lookup` | storedComponent.js:123 | getItem rejects exactly on failing keys; on a healthy key it returns the stored text when the key is present and reports it missing otherwise. |
| `AsyncStorage.Written` | storedComponent.js:139 | After setItem on a healthy key the key reads back as the text written; no other key's reading changes. |
| `AsyncStorage.Store.GetItem` | storedComponent.js:123 | getItem reads the store as Lookup says. |
| `AsyncStorage.Store.SetItem` | storedComponent.js:139 | setItem succeeds exactly on healthy keys and changes the store as Written says. |
| `Protocol.Fetch` | storedComponent.js:121-130 | get is null when the read rejects, the key is missing, or the text does not parse, and otherwise the parsed stored text. |
| `Mixin.StoredComponent.Get` | storedComponent.js:121-130 | get returns what Fetch says of the current store. |
| `Protocol.PutText` | storedComponent.js:134-139 | put stores a string as it is; any other value is stored as text that parses back to it. |
| `Mixin.StoredComponent.Put` | storedComponent.js:134-145 | put reports true exactly when the key is healthy and leaves the store as setItem of PutText does. |
| `Protocol.FetchWritten` | storedComponent.js:110 | A value stored in stringified form under a healthy key is read back by get unchanged. |
| `Protocol.RegistryRoundTrip` | storedComponent.js:84 | A registry put under a healthy key is loaded back as the same list; with the registry key failing, the registry loads as empty. |
| `Protocol.PutOutcomes` | storedComponent.js:107-116 | setState's put results are exactly one per field of obj that is registered. |
| `Protocol.PutOutcomesReadBack` | storedComponent.js:140-144 | A field's put resolved to true exactly when that field now reads back as the stored text of its value. |
| `Protocol.PutOutcomesStep` | storedComponent.js:107-113 | Putting one more field adds its result when it is registered and nothing otherwise. |
| `Protocol.WriteThroughReadBack` | storedComponent.js:108-110 | A registered field that setState wrote under a healthy key is read back by get as the value setState was given. |
| `Protocol.WriteThroughElsewhere` | storedComponent.js:107-113 | setState leaves every key that is not the field key of a registered field of obj as it was. |
| `Protocol.WriteThroughSkipsUnregistered` | storedComponent.js:108 | A field outside the registry never reaches the store. |
| `Protocol.WriteThroughKeepsRegistry` | storedComponent.js:108-110 | setState leaves the stored registry alone unless it writes a registered field named "keyList". |
| `Protocol.WriteThroughStep` | storedComponent.js:107-113 | Writing one more field is one setItem of its stringified value when it is registered, and nothing when it is not. |
| `Mixin.StoredComponent.SetState` | storedComponent.js:104-117 | The state becomes the old state merged with obj, the store becomes the write-through of the registered fields of obj, and the results are the put results. |
| `Mixin.StoredComponent.PutFields` | storedComponent.js:105-113 | The loop over obj's keys stores exactly the write-through of obj and collects one result per registered field. |
| `Mixin.StoredComponent.PutField` | storedComponent.js:108-112 | One loop step puts one field when it is registered. |
| `Restorer.Resolved` | storedComponent.js:62-77 | defaultsObj holds exactly the names whose default is a literal or a producer that resolves. |
| `Restorer.Producers` | storedComponent.js:66-68 | The producers called are exactly the names whose default is a function. |
| `Restorer.DefaultsStep` | storedComponent.js:65-77 | Taking one more default adds its settled value, records a rejection and, for a producer, its call. |
| `Restorer.RestoredValues` | storedComponent.js:42-46 | restoredObj holds exactly the registered names. |
| `Restorer.RestoredValuesStep` | storedComponent.js:42-46 | Reading one more registered field adds what get returns for it. |
| `Restorer.Reconcile` | storedComponent.js:32-96 | restore fails without touching anything exactly when the stored registry does not load as a list of names. |
| `Restorer.SeedElsewhere` | storedComponent.js:80-93 | restore writes only the registry key and the field keys of new names; registered fields other than one named "keyList" get no storage write (that field's key is the registry key, which restore writes when there are new names). |
| `Restorer.SeedRegistry` | storedComponent.js:82-85 | With new names and a healthy registry key, the extended registry is stored and loads back, unless a new field named "keyList" overwrites it; what a rejected setItem leaves is stated by `AsyncStorage.Written` and `Protocol.RegistryRoundTrip`. |
| `Restorer.SeedReadBack` | storedComponent.js:86-91 | When no producer rejects, a new field on a healthy key reads back as its default's value. |
| `Restorer.ReconcileSkipsRegisteredDefaults` | storedComponent.js:40-46 | Every registered name leaves the defaults, its producer is never called, and its state is the stored value as get returns it, null included. |
| `Restorer.ReconcileExtendsRegistry` | storedComponent.js:64-82 | The new registry is the loaded one followed by exactly the default names it lacked, in their order, and stays duplicate-free. |
| `Restorer.ReconcilePersistsRegistry` | storedComponent.js:80-85 | Without new names the store is untouched; with them, when the registry key is healthy and either a producer rejected or no new name is "keyList", the extended registry is stored and loads back. |
| `Restorer.ReconcileSeedsDefaults` | storedComponent.js:86-91 | restore rejects exactly when a producer of a name left in the defaults rejects. When restore resolves, each new name holds its default's value in the state and, on a healthy key, in the store; when a producer rejects, no default reaches the state. |
| `Restorer.ReconcileDurable` | storedComponent.js:32-96 | With healthy keys, no field named "keyList" and no rejecting producer, the registry restore leaves loads back and reading every registered field from the store gives exactly the values restore delivered. |
| `Restorer.SeedDurable` | storedComponent.js:80-93 | When every field key of the namespace is healthy, neither the loaded nor the new names include "keyList", no new name is already loaded and no producer rejects, the store restore leaves loads back the extended registry, holds the loaded fields unchanged and the new ones as seeded. |
| `Restorer.ReconcileFixpoint` | storedComponent.js:32-96 | A restore that finds every name registered, the registry stored as held and the state already holding the stored values changes nothing. |
| `Restorer.ReconcileIdempotent` | storedComponent.js:32-96 | When every field key of the namespace is healthy, neither the defaults nor the loaded registry name "keyList", and no producer of the first restore rejects, a second restore with the same defaults calls no producer, writes nothing, and leaves the registry and the state as the first left them. |
| `Restorer.SetStateThenRestore` | storedComponent.js:104-117 | When the stored registry loads as exactly the registry setState consulted and holds no "keyList", what setState stored for a registered field on a healthy key is what a fresh instance of the same namespace gets for it from restore, whatever its defaults. |
| `Mixin.Defaults.Delete` | storedComponent.js:41 | `delete defaults[key]` removes exactly that key and keeps the other keys in order. |
| `Mixin.StoredComponent.Restore` | storedComponent.js:32-96 | restore leaves the outcome, the producers called, the registry, the store, the state and the names left in the defaults exactly as Reconcile says, and the defaults left keep their values. |
| `Mixin.StoredComponent.PullBack` | storedComponent.js:40-48 | The first pass deletes every registered name from the defaults and collects each field's stored value. |
| `Mixin.StoredComponent.PullField` | storedComponent.js:41-46 | One step of the first pass deletes one name and reads its field. |
| `Mixin.StoredComponent.ResolveDefaults` | storedComponent.js:62-77 | The second pass collects defaultsObj, whether a producer rejected, and the producers called, in order. |
| `Mixin.TakeDefault` | storedComponent.js:66-76 | One step of the second pass takes a literal, or calls a producer and takes its value or its rejection. |
| `Mixin.StoredComponent.Establish` | storedComponent.js:80-93 | With new names, the registry is extended and stored, and unless a producer rejected the defaults go through setState; without new names nothing changes. |

## Left out

- Promise concurrency. Each method's asynchronous steps run to completion in the
  order they are issued. Within one `setState` call, distinct fields go to
  distinct keys (`Registry.FieldKeyInjective`), so completion order does not
  change the final store. Overlapping calls on one instance are not modelled.
- Restorer.ReconcileDurable and Restorer.SeedDurable describe the store once
  every write `restore` issued has settled, not the moment its promise settles:
  the callback at storedComponent.js:88-91 does not return
  `this.setState(defaultsObj)`, so `restore` can resolve before the defaults'
  puts complete.
- Mixin.StoredComponent.Restore: when a new default is named "keyList", the
  registry put (storedComponent.js:84) and that field's put inside
  `setState(defaultsObj)` (storedComponent.js:90) write the same key. The model
  completes them in the order issued, registry first; the source does not
  guarantee that order, so the final text under that key is not determined
  there.
- The React superclass. `super.setState` is a merge into the `state` map.
  Rendering, lifecycle and the asynchronous batching of React state updates are
  left out, and so are `console.log` calls.
- AsyncStorage internals. The store is a map plus a fixed set of failing keys,
  on which both getItem and setItem reject. Faults that come and go between
  calls are not modelled.
- Json.Encode: covers null, booleans, integers, strings and arrays. Objects,
  fractional numbers, `undefined` and functions are left out. In strings it
  escapes only the quote and the backslash, while JSON.stringify also escapes
  control characters. The round trip holds either way. Numbers are unbounded
  integers: JavaScript numbers lose integer precision above 2^53, and
  JSON.stringify writes integers of magnitude 1e21 or more in exponent form
  ("1e+21"), which `Decode` rejects. NaN and the infinities, which
  JSON.stringify writes as "null" and so do not round-trip in the source, are
  not values of the model.
- Json.Decode: reads only the form `Encode` produces. A stored text with
  whitespace, other escapes, fractions, exponents or objects reads as
  unparsable, and so as null, although JSON.parse would accept it. In the other
  direction, `Decode` accepts raw control characters inside a string, which
  JSON.parse rejects: for such a stored text `Protocol.Fetch` gives the string
  where the source's `get` gives null.
- Registry.LoadRegistry: a stored list with a non-string element is treated as
  malformed, while JavaScript would convert the element to a string when it
  builds the key.
- Mixin.StoredComponent.Restore: when the stored registry parses to a truthy
  non-list, the model leaves `keyList` unchanged. The source first assigns that
  value to `this.keyList` and then throws, and later calls use the bad value:
  `includes` throws on a number or an object, and on a string it matches
  substrings, so with a stored registry of "abc" `setState({b: 1})` stores field
  `b` (storedComponent.js:108) and `addKey` then throws at `push`
  (storedComponent.js:23). None of this is modelled.
- Mixin.StoredComponent.Restore: a default producer is modelled by what its
  promise settles to. A function that throws synchronously or returns a
  non-promise is not modelled.
- Mixin.StoredComponent.Restore: `defaults` key order is modelled as the
  `names` sequence. JavaScript's reordering of integer-like keys in
  `Object.keys` is not modelled.
- The value `setState` returns is modelled as one boolean per registered field.
  The entry for `super.setState` in `Promise.all` carries nothing and is left out.
