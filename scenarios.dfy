/** Worked scenarios: the documented behaviours of the registry, the lazy
    reference and the singleton selector, on concrete candidates. */
module Scenarios {
  import opened Util
  import opened Registerable
  import opened LazyReferences
  import Singleton

  /** The player filter on the candidates of `DuplicateAndExcluded`. */
  lemma ScenarioDiscovery(a1: Entry<string>, a2: Entry<string>, b: Entry<string>)
    requires a1.includeInRegistry && a2.includeInRegistry && !b.includeInRegistry
    ensures PlayerGetEntries([a1, a2, b]) == [a1, a2]
  {
    assert [a1, a2, b][1..] == [a2, b] && [a2, b][1..] == [b] && [b][1..] == [];
    assert PlayerGetEntries([b]) == [];
    assert PlayerGetEntries([a2, b]) == [a2];
  }

  /** The warnings for two candidates sharing id "a". */
  lemma ScenarioWarnings(a1: Entry<string>, a2: Entry<string>)
    requires a1.id == Some("a") && a2.id == Some("a")
    ensures Duplicates([a1, a2]) == ["a"]
  {
    assert [a1, a2][..1] == [a1] && [a1][..0] == [];
    assert IdsOf([a1]) == {"a"};
    assert IdsOf([a1][..0]) == {};
    assert Duplicates([a1]) == [];
  }

  /** Two included candidates share id "a" and a third, with id "b", is
      excluded: only the first "a" is registered, "b" is not found, and one
      duplicate warning is logged. */
  method DuplicateAndExcluded() {
    var a1 := new Entry<string>(Some("a"), true);
    var a2 := new Entry<string>(Some("a"), true);
    var b := new Entry<string>(Some("b"), false);
    var registry := new Registry<string, int>(e => 0);
    ScenarioDiscovery(a1, a2, b);
    ScenarioWarnings(a1, a2);
    ghost var es := registry.Initialize(PlayerResources([a1, a2, b]));
    assert es == [a1, a2];
    assert registry.warnings == ["a"];
    GetAfterBuild(registry, es, Some("b"));
    assert registry.Get(Some("b")) == None;
    TryGetDataAfterBuild(registry, es, a1);
    assert IsFirst(es, 0);
    assert registry.TryGetData(a1) == Some(0);
    TryGetDataAfterBuild(registry, es, a2);
    assert registry.TryGetData(a2) == None;
    EntriesAfterBuild(registry, es);
    EntriesExact(registry, a1, 0);
    assert registry.Entries() == {a1};
  }

  /** A reference resolved to an entry keeps returning it after a rebuild
      that no longer contains the entry; an unresolved one retries. */
  method StickyAfterRebuild() {
    var a := new Entry<string>(Some("a"), true);
    var registry := new Registry<string, int>(e => 0);
    var early := new LazyReference<string, int>(Some("a"));
    var v0 := early.Value(registry);
    assert v0 == null && early.mValue == null;   // not built yet: stays unresolved
    ghost var es := registry.Initialize(PlayerResources([a]));
    var v1 := early.Value(registry);
    assert v1 == a;                               // the retry resolves
    es := registry.Initialize(PlayerResources([]));
    assert registry.GetEntry(Some("a")) == null;
    var v2 := early.Value(registry);
    assert v2 == a;                               // sticky: the stale entry survives
  }

  /** Priorities [3, 7, 7, 1]: the editor keeps the first 7; the player takes
      the first candidate whatever its priority. */
  method PriorityTie() {
    var c0 := new Singleton.Candidate(3);
    var c1 := new Singleton.Candidate(7);
    var c2 := new Singleton.Candidate(7);
    var c3 := new Singleton.Candidate(1);
    var assets: seq<Singleton.Candidate?> := [c0, c1, c2, c3];
    var family := new Singleton.SingletonFamily();
    assert family.Instance() == null;
    family.Initialize(Singleton.EditorAssets(assets));
    var chosen := family.Instance();
    assert Singleton.IsFirstMax(assets, 1);
    Singleton.SelectedUnique(Singleton.EditorAssets(assets), chosen, c1);
    assert chosen == c1;
    family.Initialize(Singleton.PlayerResources([c0, c1, c2, c3]));
    assert family.Instance() == c0;
  }
}
