/** The keyed entry registry of `RegisterableObject<T, TId, TData>`: one
    registry per family, rebuilt from the discovered candidates, mapping
    each id to the first candidate carrying it and that candidate's data. */
module Registerable {
  import opened Util

  /** A registerable asset. Its identity is the object itself (C# reference
      equality); `id` is the serialized `m_id`, `None` for a null id. */
  class Entry<Id> {
    const id: Option<Id>
    const includeInRegistry: bool

    constructor (id: Option<Id>, includeInRegistry: bool)
      ensures this.id == id && this.includeInRegistry == includeInRegistry
    {
      this.id := id;
      this.includeInRegistry := includeInRegistry;
    }
  }

  /** `KeyValuePair<T, TData>`: a registered entry with the data made for it. */
  datatype Content<Id, D> = Content(entry: Entry<Id>, data: D)

  /** Where the candidates come from: in the editor, every asset of the type
      as loaded by the asset database (an asset may fail to load: `null`);
      in a player build, the objects loaded from the resources folder. */
  datatype Source<Id> =
    | EditorAssets(assets: seq<Entry?<Id>>)
    | PlayerResources(loaded: seq<Entry<Id>>)

  // ---------------------------------------------------------------------
  // Discovery (`RegistryImpl.GetEntries`, both build variants)
  // ---------------------------------------------------------------------

  /** Player variant: `Resources.LoadAll<T>("").Where(e => e.includeInRegistry)`. */
  function PlayerGetEntries<Id>(loaded: seq<Entry<Id>>): (r: seq<Entry<Id>>)
    ensures forall e :: e in r ==> e in loaded && e.includeInRegistry
    ensures forall e :: e in loaded && e.includeInRegistry ==> e in r
    ensures |r| <= |loaded|
  {
    if loaded == [] then []
    else (if loaded[0].includeInRegistry then [loaded[0]] else []) + PlayerGetEntries(loaded[1..])
  }

  /** The player filter keeps the load order: filtering a concatenation is
      concatenating the filtered parts. */
  lemma {:induction false} PlayerGetEntriesKeepsOrder<Id>(a: seq<Entry<Id>>, b: seq<Entry<Id>>)
    ensures PlayerGetEntries(a + b) == PlayerGetEntries(a) + PlayerGetEntries(b)
    decreases |a|
  {
    if a == [] {
      assert a + b == b;
    } else {
      var head := if a[0].includeInRegistry then [a[0]] else [];
      assert (a + b)[0] == a[0];
      assert (a + b)[1..] == a[1..] + b;
      assert PlayerGetEntries(a + b) == head + PlayerGetEntries(a[1..] + b);
      PlayerGetEntriesKeepsOrder(a[1..], b);
      assert PlayerGetEntries(a) == head + PlayerGetEntries(a[1..]);
      assert head + (PlayerGetEntries(a[1..]) + PlayerGetEntries(b)) == (head + PlayerGetEntries(a[1..])) + PlayerGetEntries(b);
    }
  }

  /** Editor variant: every loaded, included asset, collected in a hash set
      and returned in the set's (unspecified) enumeration order. */
  method EditorGetEntries<Id>(assets: seq<Entry?<Id>>) returns (r: seq<Entry<Id>>)
    ensures NoDuplicates(r)
    ensures forall e: Entry<Id> :: e in r <==> e in assets && e.includeInRegistry
  {
    var result: set<Entry<Id>> := {};
    for i := 0 to |assets|
      invariant forall e: Entry<Id> :: e in result <==> e in assets[..i] && e.includeInRegistry
    {
      var asset := assets[i];
      assert assets[..i + 1] == assets[..i] + [asset];
      if asset == null || !asset.includeInRegistry {
        continue;
      }
      result := result + {asset};
    }
    assert assets[..|assets|] == assets;
    r := SetToSeq(result);
  }

  /** `es` is a sequence that `GetEntries` may return for `source`. */
  ghost predicate Discovered<Id>(source: Source<Id>, es: seq<Entry<Id>>) {
    match source
    case EditorAssets(assets) =>
      && NoDuplicates(es)
      && (forall e :: e in es ==> e in assets && e.includeInRegistry)
      && (forall e: Entry<Id> :: e in assets && e.includeInRegistry ==> e in es)
    case PlayerResources(loaded) =>
      es == PlayerGetEntries(loaded)
  }

  /** `RegistryImpl.GetEntries`, the variant chosen by the build. */
  method GetEntries<Id>(source: Source<Id>) returns (es: seq<Entry<Id>>)
    ensures Discovered(source, es)
  {
    match source
    case EditorAssets(assets) =>
      es := EditorGetEntries(assets);
    case PlayerResources(loaded) =>
      es := PlayerGetEntries(loaded);
  }

  // ---------------------------------------------------------------------
  // The map built by `Initialize`
  // ---------------------------------------------------------------------

  /** Every candidate has a non-null id (`Dictionary.TryAdd` throws on a null key). */
  predicate IdsAssigned<Id>(es: seq<Entry<Id>>) {
    forall e :: e in es ==> e.id.Some?
  }

  /** Every candidate that discovery can return has a non-null id. */
  ghost predicate SourceIdsAssigned<Id>(source: Source<Id>) {
    match source
    case EditorAssets(assets) =>
      forall e: Entry<Id> :: e in assets && e.includeInRegistry ==> e.id.Some?
    case PlayerResources(loaded) =>
      forall e :: e in loaded && e.includeInRegistry ==> e.id.Some?
  }

  /** The ids carried by the candidates. */
  ghost function IdsOf<Id>(es: seq<Entry<Id>>): set<Id> {
    set e | e in es && e.id.Some? :: e.id.value
  }

  /** Candidate `k` is the first one in discovery order with its id. */
  ghost predicate IsFirst<Id>(es: seq<Entry<Id>>, k: int)
    requires 0 <= k < |es|
  {
    forall j :: 0 <= j < k ==> es[j].id != es[k].id
  }

  /** Each stored pair sits under its entry's own id, with the data made for it. */
  ghost predicate Consistent<Id, D>(createData: Entry<Id> -> D, m: map<Id, Content<Id, D>>) {
    forall id :: id in m ==> m[id].entry.id == Some(id) && m[id].data == createData(m[id].entry)
  }

  /** The dictionary after `TryAdd` of every candidate, in order, into an empty one. */
  ghost function Build<Id, D>(createData: Entry<Id> -> D, es: seq<Entry<Id>>): map<Id, Content<Id, D>>
    requires IdsAssigned(es)
    decreases |es|
  {
    if es == [] then map[]
    else
      var init := es[..|es| - 1];
      var e := es[|es| - 1];
      assert forall x :: x in init ==> x in es;
      var m := Build(createData, init);
      if e.id.value in m then m else m[e.id.value := Content(e, createData(e))]
  }

  /** Map consistency: the keys are exactly the candidates' ids, and every
      stored pair is a candidate under its own id with the data made for it. */
  lemma {:induction false} BuildShape<Id, D>(createData: Entry<Id> -> D, es: seq<Entry<Id>>)
    requires IdsAssigned(es)
    ensures Build(createData, es).Keys == IdsOf(es)
    ensures Consistent(createData, Build(createData, es))
    ensures forall id :: id in Build(createData, es) ==> Build(createData, es)[id].entry in es
    decreases |es|
  {
    if es != [] {
      var init := es[..|es| - 1];
      var e := es[|es| - 1];
      assert forall x :: x in init ==> x in es;
      assert es == init + [e];
      BuildShape(createData, init);
    }
  }

  /** The ids warned about, one per rejected `TryAdd`, in order. */
  ghost function Duplicates<Id>(es: seq<Entry<Id>>): seq<Id>
    requires IdsAssigned(es)
    decreases |es|
  {
    if es == [] then []
    else
      var init := es[..|es| - 1];
      assert forall x :: x in init ==> x in es;
      var id := es[|es| - 1].id.value;
      Duplicates(init) + (if id in IdsOf(init) then [id] else [])
  }

  /** One `TryAdd` step: the next candidate is added under its id or, when
      the id is taken, the map is left alone and a warning is added. */
  lemma BuildStep<Id, D>(createData: Entry<Id> -> D, es: seq<Entry<Id>>, i: int)
    requires IdsAssigned(es) && 0 <= i < |es|
    ensures IdsAssigned(es[..i]) && IdsAssigned(es[..i + 1])
    ensures var m, id := Build(createData, es[..i]), es[i].id.value;
      && Build(createData, es[..i + 1]) == (if id in m then m else m[id := Content(es[i], createData(es[i]))])
      && Duplicates(es[..i + 1]) == Duplicates(es[..i]) + (if id in m then [id] else [])
  {
    assert es[..i + 1][..i] == es[..i];
    assert forall x :: x in es[..i + 1] ==> x in es;
    BuildShape(createData, es[..i]);
  }

  /** What discovery returns has non-null ids when the source's included candidates do. */
  lemma DiscoveredIdsAssigned<Id>(source: Source<Id>, es: seq<Entry<Id>>)
    requires Discovered(source, es) && SourceIdsAssigned(source)
    ensures IdsAssigned(es)
  {
  }

  /** How many candidates carry `id`. */
  ghost function CountId<Id>(es: seq<Entry<Id>>, id: Id): nat
    decreases |es|
  {
    if es == [] then 0
    else CountId(es[..|es| - 1], id) + (if es[|es| - 1].id == Some(id) then 1 else 0)
  }

  /** First wins: the pair stored under an id is the first candidate with
      that id, paired with its data. */
  lemma {:induction false} BuildFirstWins<Id, D>(createData: Entry<Id> -> D, es: seq<Entry<Id>>, k: int)
    requires IdsAssigned(es) && 0 <= k < |es| && IsFirst(es, k)
    ensures es[k].id.value in Build(createData, es)
    ensures Build(createData, es)[es[k].id.value] == Content(es[k], createData(es[k]))
    decreases |es|
  {
    var init := es[..|es| - 1];
    assert forall x :: x in init ==> x in es;
    BuildShape(createData, init);
    if k == |es| - 1 {
      assert es[k].id.value !in IdsOf(init) by {
        forall x | x in init && x.id.Some?
          ensures x.id.value != es[k].id.value
        {
          var j :| 0 <= j < |init| && init[j] == x;
        }
      }
    } else {
      assert IsFirst(init, k);
      BuildFirstWins(createData, init, k);
    }
  }

  /** Every id present among the candidates has a first candidate. */
  lemma {:induction false} FirstExists<Id>(es: seq<Entry<Id>>, id: Id)
    requires id in IdsOf(es)
    ensures exists k :: 0 <= k < |es| && es[k].id == Some(id) && IsFirst(es, k)
    decreases |es|
  {
    var init := es[..|es| - 1];
    if id in IdsOf(init) {
      FirstExists(init, id);
      var k :| 0 <= k < |init| && init[k].id == Some(id) && IsFirst(init, k);
      assert IsFirst(es, k);
    } else {
      forall j | 0 <= j < |es| - 1
        ensures es[j].id != Some(id)
      {
        assert es[j] in init;
      }
      var e :| e in es && e.id == Some(id);
      var j :| 0 <= j < |es| && es[j] == e;
      assert IsFirst(es, j);
    }
  }

  /** One warning per dropped duplicate: an id is warned about once for
      every candidate carrying it beyond the first. */
  lemma {:induction false} DuplicatesCount<Id>(es: seq<Entry<Id>>, id: Id)
    requires IdsAssigned(es)
    ensures id in IdsOf(es) <==> CountId(es, id) > 0
    ensures multiset(Duplicates(es))[id] == if id in IdsOf(es) then CountId(es, id) - 1 else 0
    decreases |es|
  {
    if es != [] {
      var init := es[..|es| - 1];
      var e := es[|es| - 1];
      assert forall x :: x in init ==> x in es;
      assert es == init + [e];
      DuplicatesCount(init, id);
      assert IdsOf(es) == IdsOf(init) + {e.id.value};
    }
  }

  /** Every candidate is either stored or warned about, never both. */
  lemma {:induction false} BuildSize<Id, D>(createData: Entry<Id> -> D, es: seq<Entry<Id>>)
    requires IdsAssigned(es)
    ensures |Build(createData, es)| + |Duplicates(es)| == |es|
    decreases |es|
  {
    if es != [] {
      var init := es[..|es| - 1];
      var e := es[|es| - 1];
      assert forall x :: x in init ==> x in es;
      BuildSize(createData, init);
      BuildShape(createData, init);
      var m := Build(createData, init);
      if e.id.value !in m {
        assert m[e.id.value := Content(e, createData(e))].Keys == m.Keys + {e.id.value};
      }
    }
  }

  /** With ids unique among the candidates, the discovery order does not
      matter: any two enumerations of the same candidates build the same map. */
  lemma BuildOrderIndependent<Id, D>(createData: Entry<Id> -> D, es: seq<Entry<Id>>, es': seq<Entry<Id>>)
    requires IdsAssigned(es) && IdsAssigned(es')
    requires forall e :: e in es <==> e in es'
    requires forall e1, e2 :: e1 in es && e2 in es && e1.id == e2.id ==> e1 == e2
    ensures Build(createData, es) == Build(createData, es')
  {
    var m, m' := Build(createData, es), Build(createData, es');
    BuildShape(createData, es);
    BuildShape(createData, es');
    assert IdsOf(es) == IdsOf(es');
    forall id | id in m
      ensures m[id] == m'[id]
    {
      assert m[id].entry == m'[id].entry;
    }
  }

  /** A map whose pairs sit under their entries' ids has as many distinct
      entries, and as many distinct pairs, as keys. */
  lemma {:induction false} EntriesCount<Id, D>(m: map<Id, Content<Id, D>>)
    requires forall id :: id in m ==> m[id].entry.id == Some(id)
    ensures |(set id | id in m :: m[id].entry)| == |m|
    ensures |m.Values| == |m|
    decreases |m|
  {
    if |m| > 0 {
      var x :| x in m;
      var m' := m - {x};
      EntriesCount(m');
      var s, s' := set id | id in m :: m[id].entry, set id | id in m' :: m'[id].entry;
      assert s == s' + {m[x].entry};
      assert m[x].entry !in s';
      assert m.Values == m'.Values + {m[x]};
      assert m[x] !in m'.Values;
    }
  }

  // ---------------------------------------------------------------------
  // The per-family registry (the static members of RegisterableObject)
  // ---------------------------------------------------------------------

  /** The static state of one family: `s_entries` (`None` until the first
      `Initialize`), the family's `CreateData`, and the warnings logged. */
  class Registry<Id(==), D(==)> {
    const createData: Entry<Id> -> D
    var sEntries: Option<map<Id, Content<Id, D>>>
    ghost var warnings: seq<Id>

    ghost predicate Valid()
      reads this
    {
      sEntries.Some? ==> Consistent(createData, sEntries.value)
    }

    constructor (createData: Entry<Id> -> D)
      ensures Valid() && this.createData == createData
      ensures sEntries == None && warnings == []
    {
      this.createData := createData;
      sEntries := None;
      warnings := [];
    }

    /** `Initialize`: discovers the candidates and rebuilds the map from
        them. Returns the discovery order used. */
    method Initialize(source: Source<Id>) returns (ghost discovered: seq<Entry<Id>>)
      requires SourceIdsAssigned(source)
      modifies this
      ensures Valid()
      ensures Discovered(source, discovered) && IdsAssigned(discovered)
      ensures sEntries == Some(Build(createData, discovered))
      ensures warnings == old(warnings) + Duplicates(discovered)
    {
      var es := GetEntries(source);
      DiscoveredIdsAssigned(source, es);
      Rebuild(es);
      discovered := es;
    }

    /** The body of `Initialize` after discovery: clears the map and adds
        every candidate under its id; a candidate whose id is already
        present is dropped with a warning. */
    method Rebuild(es: seq<Entry<Id>>)
      requires IdsAssigned(es)
      modifies this
      ensures Valid()
      ensures sEntries == Some(Build(createData, es))
      ensures warnings == old(warnings) + Duplicates(es)
    {
      sEntries := Some(map[]);
      for i := 0 to |es|
        invariant IdsAssigned(es[..i])
        invariant sEntries == Some(Build(createData, es[..i]))
        invariant warnings == old(warnings) + Duplicates(es[..i])
      {
        var entry := es[i];
        var id := entry.id.value;
        var content := Content(entry, createData(entry));
        BuildStep(createData, es, i);
        if id in sEntries.value {
          warnings := warnings + [id];
        } else {
          sEntries := Some(sEntries.value[id := content]);
        }
      }
      assert es[..|es|] == es;
      BuildShape(createData, es);
    }

    /** `Get(id, out data)`: the stored pair, or `None` (null entry, default
        data) when the map was never built, the id is null or absent. */
    function Get(id: Option<Id>): (r: Option<Content<Id, D>>)
      reads this
      ensures r.Some? <==> sEntries.Some? && id.Some? && id.value in sEntries.value
      ensures r.Some? ==> r.value == sEntries.value[id.value]
    {
      if sEntries.Some? && id.Some? && id.value in sEntries.value then Some(sEntries.value[id.value]) else None
    }

    /** `Get(id)`: the entry part of `Get(id, out data)`. */
    function GetEntry(id: Option<Id>): (r: Entry?<Id>)
      reads this
      ensures r != null <==> Get(id).Some?
      ensures r != null ==> r == Get(id).value.entry
    {
      match Get(id)
      case Some(c) => c.entry
      case None => null
    }

    /** `e.TryGetData(out data)`: the data stored for `e` when the entry
        stored under `e`'s own id is `e` itself. */
    function TryGetData(e: Entry<Id>): (r: Option<D>)
      reads this
      ensures r.Some? <==> Get(e.id).Some? && Get(e.id).value.entry == e
      ensures r.Some? ==> r.value == Get(e.id).value.data
    {
      match Get(e.id)
      case Some(c) => if c.entry == e then Some(c.data) else None
      case None => None
    }

    /** `entries`: the entries of the map's values. */
    function Entries(): (r: set<Entry<Id>>)
      reads this
      requires Valid() && sEntries.Some?
      ensures forall e :: e in r ==> TryGetData(e).Some?
      ensures |r| == |sEntries.value|
    {
      EntriesCount(sEntries.value);
      set id | id in sEntries.value :: sEntries.value[id].entry
    }

    /** `entriesWithData`: the map's values. */
    function EntriesWithData(): (r: set<Content<Id, D>>)
      reads this
      requires Valid() && sEntries.Some?
      ensures forall c :: c in r ==> TryGetData(c.entry) == Some(c.data)
      ensures forall c :: c in r ==> c.entry in Entries()
      ensures |r| == |sEntries.value|
    {
      EntriesCount(sEntries.value);
      var m := sEntries.value;
      assert forall c :: c in m.Values ==> c == m[c.entry.id.value];
      m.Values
    }
  }

  /** `entries` and `entriesWithData` hold every entry that `TryGetData`
      accepts, and nothing else. */
  lemma EntriesExact<Id, D>(registry: Registry<Id, D>, e: Entry<Id>, d: D)
    requires registry.Valid() && registry.sEntries.Some?
    ensures e in registry.Entries() <==> registry.TryGetData(e).Some?
    ensures Content(e, d) in registry.EntriesWithData() <==> registry.TryGetData(e) == Some(d)
  {
  }

  // ---------------------------------------------------------------------
  // Lookups after a build, in terms of the candidates
  // ---------------------------------------------------------------------

  /** After a build from `es`, `Get` finds exactly the candidates' ids, and
      for each one returns the first candidate with it and that candidate's data. */
  lemma GetAfterBuild<Id, D>(registry: Registry<Id, D>, es: seq<Entry<Id>>, id: Option<Id>)
    requires IdsAssigned(es) && registry.sEntries == Some(Build(registry.createData, es))
    ensures registry.Get(id).Some? <==> id.Some? && exists e :: e in es && e.id == id
    ensures forall k :: 0 <= k < |es| && es[k].id == id && IsFirst(es, k) ==>
              registry.Get(id) == Some(Content(es[k], registry.createData(es[k])))
  {
    BuildShape(registry.createData, es);
    forall k | 0 <= k < |es| && es[k].id == id && IsFirst(es, k)
      ensures registry.Get(id) == Some(Content(es[k], registry.createData(es[k])))
    {
      BuildFirstWins(registry.createData, es, k);
    }
  }

  /** After a build from `es`, `TryGetData` succeeds for exactly the
      candidates that won their id, with their own data; a dropped
      duplicate and an object that was not discovered get nothing. */
  lemma TryGetDataAfterBuild<Id, D>(registry: Registry<Id, D>, es: seq<Entry<Id>>, e: Entry<Id>)
    requires IdsAssigned(es) && registry.sEntries == Some(Build(registry.createData, es))
    ensures registry.TryGetData(e).Some? <==> exists k :: 0 <= k < |es| && es[k] == e && IsFirst(es, k)
    ensures registry.TryGetData(e).Some? ==> registry.TryGetData(e) == Some(registry.createData(e))
  {
    BuildShape(registry.createData, es);
    if registry.TryGetData(e).Some? {
      var id := e.id.value;
      FirstExists(es, id);
      var k :| 0 <= k < |es| && es[k].id == Some(id) && IsFirst(es, k);
      BuildFirstWins(registry.createData, es, k);
    }
    if exists k :: 0 <= k < |es| && es[k] == e && IsFirst(es, k) {
      var k :| 0 <= k < |es| && es[k] == e && IsFirst(es, k);
      BuildFirstWins(registry.createData, es, k);
    }
  }

  /** After a build from `es`, `entries` holds only discovered candidates,
      no more of them than were discovered, and one per distinct id. */
  lemma EntriesAfterBuild<Id, D>(registry: Registry<Id, D>, es: seq<Entry<Id>>)
    requires IdsAssigned(es) && registry.Valid() && registry.sEntries == Some(Build(registry.createData, es))
    ensures forall e :: e in registry.Entries() ==> e in es
    ensures |registry.Entries()| == |IdsOf(es)| <= |es|
  {
    BuildSize(registry.createData, es);
    BuildShape(registry.createData, es);
    assert |Build(registry.createData, es).Keys| == |IdsOf(es)|;
  }
}
