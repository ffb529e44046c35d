# UtilitySO registries, modelled in Dafny

A model of the two start-up registries of the UtilitySO Unity package, together with proofs of what they promise.

- **Keyed entry registry** (`RegisterableObject<T, TId, TData>`). Each family (one closed specialization of the generic base) has a static dictionary from id to (entry, data). `Initialize` clears the dictionary. It then inserts every discovered candidate under its id, paired with `CreateData(entry)`. On a repeated id the first candidate wins; each later one is dropped with one warning. `Get`, `TryGetData`, `entries` and `entriesWithData` read the dictionary. A `LazyReference` holds an id. It resolves that id on first use and keeps the first non-null result for good.
- **Singleton selector** (`SingletonObject<T>`). `Initialize` stores one candidate in `s_instance`. In the editor it is the first candidate with the highest priority. In a player build it is simply the first candidate loaded.
- **Start-up walk** (`RegistryInitializer`, `SingletonInitializer`). Each loaded type's base chain is climbed to the first closed specialization of the generic base. Every distinct family found this way has its `Initialize` called once.

Files:

- `util.dfy`: `Option`, `NoDuplicates`, and nondeterministic set enumeration (`HashSet.ToArray`).
- `registry.dfy`: module `Registerable`. It holds the entry class, both discovery variants, the specification function `Build` with its lemmas, and the `Registry` class (the per-family static state).
- `lazy_reference.dfy`: module `LazyReferences`. It holds the `LazyReference` class, plus `Accesses`, the values returned by a series of accesses, with its lemmas.
- `startup.dfy`: module `Startup`. It holds the base-chain walk that both initializers share.
- `singleton.dfy`: module `Singleton`. It holds the candidate class, both `SingletonImpl.Get` variants and the `SingletonFamily` class.
- `scenarios.dfy`: worked scenarios on concrete objects. They cover a duplicate plus an excluded entry, a lazy reference that stays stale after a rebuild, and the priorities [3, 7, 7, 1].

How the model is built:

- Entries and candidates are classes with constant fields, so object identity is reference identity. The source relies on this in `TryGetData` (`== this`) and in the editor's `HashSet<T>`.
- A family's static state is a class. Its methods change fields that their `modifies` clauses name.
- The warning log is a ghost sequence of the ids warned about.
- `CreateData` is a function held by the registry. The `RegisterableObject<T, TId>` shortcut, whose `CreateData` returns null, is the case of a constant function.
- The two `#if UNITY_EDITOR` variants of discovery are the two constructors of a `Source` datatype.
- The editor's `HashSet.ToArray()` enumerates in an unspecified order. So `Initialize` returns, as a ghost value, the enumeration it used, and first-wins is stated against that order. `BuildOrderIndependent` shows that the order matters only when ids repeat.

Where the code and the system's specification differ, the model follows the code:

- The specification says candidates with a null id are skipped. The code passes them to `Dictionary.TryAdd`, which throws.
- The specification says excluded entries compare equal to null and that lazy references compare by id. The modelled file, Runtime/Scripts/RegisterableObject.cs, has neither override. The other copies under "Singleton and Registerable" do define both, but they are not part of this model.
- The specification says one family's failing `Initialize` does not stop the others. The code has no `try`/`catch` around `Invoke`.

## Model

| member | source | states |
|---|---|---|
| `Registerable.PlayerGetEntries` | Runtime/Scripts/RegisterableObject.cs:177 | the result holds exactly the loaded objects whose `includeInRegistry` is true, and is no longer than the load |
| `Registerable.PlayerGetEntriesKeepsOrder` | Runtime/Scripts/RegisterableObject.cs:177 | the filter keeps load order: filtering `a + b` is filtering `a`, then `b` |
| `Registerable.EditorGetEntries` | Runtime/Scripts/RegisterableObject.cs:150-165 | the result repeats no object and holds exactly the non-null, included assets |
| `Registerable.GetEntries` | Runtime/Scripts/RegisterableObject.cs:144-179 | the result is one that the build's discovery variant may return (`Discovered`) |
| `Registerable.BuildShape` | Runtime/Scripts/RegisterableObject.cs:29-34 | after the inserts, the key set equals the set of candidate ids; every pair `id -> (e, d)` has a discovered `e` with `e.id == id` and `d == CreateData(e)` |
| `Registerable.BuildFirstWins` | Runtime/Scripts/RegisterableObject.cs:29-37 | the pair stored under an id is the first candidate in discovery order with that id, with its data |
| `Registerable.BuildStep` | Runtime/Scripts/RegisterableObject.cs:31-37 | one `TryAdd`: a candidate with a new id is added; one whose id is taken leaves the map unchanged and adds exactly one warning |
| `Registerable.DuplicatesCount` | Runtime/Scripts/RegisterableObject.cs:34-37 | an id is warned about once for every candidate with that id beyond the first, and never if no candidate has it |
| `Registerable.BuildSize` | Runtime/Scripts/RegisterableObject.cs:29-37 | stored pairs plus warnings equal the number of candidates: each candidate is stored or warned about, never both |
| `Registerable.BuildOrderIndependent` | Runtime/Scripts/RegisterableObject.cs:28-38 | when ids are unique, any two enumerations of the same candidates build the same map |
| `Registerable.EntriesCount` | Runtime/Scripts/RegisterableObject.cs:42-44 | in a map whose pairs sit under their own entry's id, the distinct entries and the distinct pairs are each as many as the keys |
| `Registerable.Registry.constructor` | Runtime/Scripts/RegisterableObject.cs:22 | before any `Initialize` the static dictionary is null (`None`) and nothing was logged |
| `Registerable.Registry.Initialize` | Runtime/Scripts/RegisterableObject.cs:24-40 | the new map is `Build` of the discovered candidates, whatever the old map held; the log gains exactly `Duplicates` of them; the object invariant holds |
| `Registerable.Registry.Rebuild` | Runtime/Scripts/RegisterableObject.cs:26-38 | clearing and then `TryAdd` over the candidates in order leaves exactly `Build(createData, es)` and logs `Duplicates(es)` |
| `Registerable.Registry.Get` | Runtime/Scripts/RegisterableObject.cs:51-62 | a pair is found iff the map exists, the id is non-null and the key is present, and it is the stored pair; otherwise `None` (null entry, default data) |
| `Registerable.Registry.GetEntry` | Runtime/Scripts/RegisterableObject.cs:46-49 | the one-argument `Get` is non-null exactly when the two-argument one finds a pair, and then it is that pair's entry |
| `Registerable.Registry.TryGetData` | Runtime/Scripts/RegisterableObject.cs:64-73 | succeeds iff the entry stored under the object's own id is that object, and then yields its data; otherwise default |
| `Registerable.Registry.Entries` | Runtime/Scripts/RegisterableObject.cs:42 | every listed entry passes `TryGetData`, and there are as many entries as keys |
| `Registerable.Registry.EntriesWithData` | Runtime/Scripts/RegisterableObject.cs:44 | every listed pair is an entry's own stored data, its entry is in `entries`, and there are as many pairs as keys |
| `Registerable.EntriesExact` | Runtime/Scripts/RegisterableObject.cs:42-44 | an object is in `entries`, and `(e, d)` is in `entriesWithData`, exactly when `TryGetData` accepts it (with data `d`) |
| `Registerable.GetAfterBuild` | Runtime/Scripts/RegisterableObject.cs:51-62 | after a build, `Get(id)` finds a pair iff some candidate has that non-null id, and the pair is the first such candidate with its data |
| `Registerable.TryGetDataAfterBuild` | Runtime/Scripts/RegisterableObject.cs:64-73 | after a build, `TryGetData` succeeds exactly for candidates that came first with their id, with `CreateData` of themselves; dropped duplicates and undiscovered objects fail |
| `Registerable.EntriesAfterBuild` | Runtime/Scripts/RegisterableObject.cs:42 | after a build, `entries` holds only discovered candidates, one per distinct id, so no more than the number of candidates |
| `LazyReferences.LazyReference.constructor` | Runtime/Scripts/RegisterableObject.cs:78-81 | a fresh reference holds its id and an empty cache |
| `LazyReferences.LazyReference.Value` | Runtime/Scripts/RegisterableObject.cs:83 | with a non-null cache, returns it unchanged without consulting the registry; otherwise stores and returns `Get(m_id)`, so a null result leaves it unresolved; one call is one step of `Accesses`, which `AccessesSticky` and `AccessesRetry` are about |
| `LazyReferences.AccessesResolveFirstNonNull` | Runtime/Scripts/RegisterableObject.cs:83 | the k-th access returns the initial cache if non-null, and otherwise the registry's first non-null answer up to that access |
| `LazyReferences.AccessesSticky` | Runtime/Scripts/RegisterableObject.cs:83 | once an access returns a non-null entry, every later access returns the same entry, whatever the registry answers after rebuilds |
| `LazyReferences.AccessesRetry` | Runtime/Scripts/RegisterableObject.cs:83 | while the registry answers null the reference stays unresolved, and the first non-null answer is what it then returns |
| `Startup.FamilyOf` | Runtime/Scripts/RegisterableObject.cs:123-137 | a family is found iff some base before `object` is a closed specialization of the generic definition; it is the first such base, and no earlier base matches |
| `Startup.InitOrderExactlyOnce` | Runtime/Scripts/RegisterableObject.cs:118-138 | the families initialized repeat none, and are exactly the families of the loaded types, however many types share one |
| `Startup.InitializeFamilies` | Runtime/Scripts/RegisterableObject.cs:118-138 | the walk with its hash set and `break` calls `Initialize` for exactly the sequence `InitOrder` (each type's family, when first met) |
| `Startup.RegistryInitializerInitialize` | Runtime/Scripts/RegisterableObject.cs:116-139 | `Initialize` runs once per distinct closed `RegisterableObject<,,>` family of the loaded types, and for no other type |
| `Startup.SingletonInitializerInitialize` | Runtime/Scripts/SingletonObject.cs:33-56 | `Initialize` runs once per distinct closed `SingletonObject<>` family of the loaded types, and for no other type |
| `Singleton.EditorGet` | Runtime/Scripts/SingletonObject.cs:63-85 | returns null iff every asset is null; otherwise an asset that has the highest priority of all non-null assets and is the first asset with that priority |
| `Singleton.FirstMaxUnique` | Runtime/Scripts/SingletonObject.cs:78 | because the comparison is strict, at most one index is the first maximum |
| `Singleton.PlayerGet` | Runtime/Scripts/SingletonObject.cs:92-96 | returns null iff nothing was loaded, and otherwise the first loaded object, whatever the priorities |
| `Singleton.SelectedUnique` | Runtime/Scripts/SingletonObject.cs:61-97 | both variants are deterministic: a source admits exactly one selection |
| `Singleton.Get` | Runtime/Scripts/SingletonObject.cs:61-97 | the result is the selection of the build's variant (`Selected`) |
| `Singleton.SingletonFamily.constructor` | Runtime/Scripts/SingletonObject.cs:20-22 | `instance` is null before any initialization |
| `Singleton.SingletonFamily.Instance` | Runtime/Scripts/SingletonObject.cs:22 | returns `s_instance` as it stands: null after the constructor, the selection after `Initialize` |
| `Singleton.SingletonFamily.Initialize` | Runtime/Scripts/SingletonObject.cs:24-27 | overwrites `s_instance` with the selection, which `instance` then returns |

## Left out

- Registerable.Registry.Initialize: requires every included candidate to have a non-null id. `Dictionary.TryAdd` throws `ArgumentNullException` on a null key, and the resulting half-built map and aborted start-up are not modelled.
- Registerable.Registry.Rebuild: requires non-null ids, for the same reason.
- Registerable.Registry.Entries: requires an initialized registry. On a null `s_entries` the source throws, and that error is not modelled.
- Registerable.Registry.EntriesWithData: requires an initialized registry, for the same reason.
- `entries` and `entriesWithData` are lazy views of the live dictionary, enumerated in an unspecified order. The model returns sets taken at the moment of the call.
- Asset loading (`AssetDatabase.FindAssets`, `LoadAssetAtPath`, `Resources.LoadAll`) is engine I/O. The loaded objects are an input sequence.
- Reflection (`AppDomain.GetAssemblies`, `GetTypes`, `GetMethod`, `Invoke`) is foreign code. A loaded type is its chain of base types. A call to a family's `Initialize` is recorded as that family appearing in the returned sequence. It is not connected to a `Registry` or `SingletonFamily` object.
- Startup.ClrType: a family is identified by the fields the walk reads (full name, flags, generic definition), not by runtime type identity as `HashSet<Type>` does. Two distinct closed types with the same full name from different assemblies count as one family here, where the source initializes both.
- An exception thrown from one family's `Initialize` and propagating out of the walk is not modelled.
- Only the warning's id is logged. Its text, with the type name and `id.ToString()`, is left out.
- `CreateData` is a pure function. It is called even for a dropped duplicate, but it has no side effects here.
- `priority` and `includeInRegistry` are constant properties read from the object.
- Unity's overloaded `==` for destroyed objects, and `[Serializable]`/`[SerializeField]` persistence, are not modelled.
- Running the initializers before scene load is a host concern. Choosing a variant with `#if UNITY_EDITOR` becomes the `Source` argument.
- Editor/Scripts/LazyReferenceDrawer.cs is editor UI and not part of this model. The same goes for the other copies under "Singleton and Registerable", `BuildProcess.cs`, and the event and variable utilities.
