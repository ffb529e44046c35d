/** `SingletonObject<T>`: one active instance per family, chosen among the
    candidate assets at start-up. */
module Singleton {

  /** A candidate asset; its identity is the object itself. */
  class Candidate {
    /** The abstract `priority` property, read as a constant. */
    const priority: int

    constructor (priority: int)
      ensures this.priority == priority
    {
      this.priority := priority;
    }
  }

  /** Where the candidates come from: every asset of the type as loaded in
      the editor (an asset may fail to load: `null`), or the objects loaded
      from the resources folder in a player build. */
  datatype Source =
    | EditorAssets(assets: seq<Candidate?>)
    | PlayerResources(loaded: seq<Candidate>)

  /** `assets[k]` is the choice of the editor scan: a non-null candidate whose
      priority is at least every other non-null candidate's, and strictly
      greater than that of every non-null candidate seen before it. */
  ghost predicate IsFirstMax(assets: seq<Candidate?>, k: int) {
    && 0 <= k < |assets|
    && assets[k] != null
    && (forall j :: 0 <= j < |assets| && assets[j] != null ==> assets[j].priority <= assets[k].priority)
    && (forall j :: 0 <= j < k && assets[j] != null ==> assets[j].priority < assets[k].priority)
  }

  /** Editor `SingletonImpl.Get`: scans the assets, skips the ones that did
      not load, and keeps the highest priority; the comparison is strict, so
      the first of several equal maxima is kept. */
  method EditorGet(assets: seq<Candidate?>) returns (result: Candidate?)
    ensures result == null <==> forall j :: 0 <= j < |assets| ==> assets[j] == null
    ensures result != null ==> exists k :: IsFirstMax(assets, k) && assets[k] == result
  {
    result := null;
    ghost var best := 0;
    for i := 0 to |assets|
      invariant result == null <==> forall j :: 0 <= j < i ==> assets[j] == null
      invariant result != null ==> best < i && assets[best] == result && IsFirstMax(assets[..i], best)
    {
      var asset := assets[i];
      if asset == null {
        continue;
      }
      if result == null || result.priority < asset.priority {
        result := asset;
        best := i;
      }
    }
    assert assets[..|assets|] == assets;
  }

  /** Tie-breaking makes the editor choice unique: at most one index is the
      first maximum. */
  lemma FirstMaxUnique(assets: seq<Candidate?>, k1: int, k2: int)
    requires IsFirstMax(assets, k1) && IsFirstMax(assets, k2)
    ensures k1 == k2
  {
  }

  /** Player `SingletonImpl.Get`: `FirstOrDefault()`, the first loaded object
      or `null`, with no regard to priority. */
  function PlayerGet(loaded: seq<Candidate>): (r: Candidate?)
    ensures r == null <==> |loaded| == 0
    ensures r != null ==> r == loaded[0]
  {
    if |loaded| == 0 then null else loaded[0]
  }

  /** `r` is what `SingletonImpl.Get` may return for `source`. */
  ghost predicate Selected(source: Source, r: Candidate?) {
    match source
    case EditorAssets(assets) =>
      && (r == null <==> forall j :: 0 <= j < |assets| ==> assets[j] == null)
      && (r != null ==> exists k :: IsFirstMax(assets, k) && assets[k] == r)
    case PlayerResources(loaded) =>
      r == PlayerGet(loaded)
  }

  /** Both variants are deterministic: one source admits one selection. */
  lemma SelectedUnique(source: Source, r1: Candidate?, r2: Candidate?)
    requires Selected(source, r1) && Selected(source, r2)
    ensures r1 == r2
  {
  }

  /** `SingletonImpl.Get`, the variant chosen by the build. */
  method Get(source: Source) returns (r: Candidate?)
    ensures Selected(source, r)
  {
    match source
    case EditorAssets(assets) =>
      r := EditorGet(assets);
    case PlayerResources(loaded) =>
      r := PlayerGet(loaded);
  }

  /** The static state of one family: `s_instance`. */
  class SingletonFamily {
    var sInstance: Candidate?

    constructor ()
      ensures sInstance == null
    {
      sInstance := null;
    }

    /** `instance`: the current value of `s_instance`, with no lookup. */
    function Instance(): (r: Candidate?)
      reads this
      ensures r == sInstance
    {
      sInstance
    }

    /** `Initialize`: overwrites `s_instance` with the selection, so that
        `instance` returns exactly it. */
    method Initialize(source: Source)
      modifies this
      ensures Selected(source, Instance())
    {
      sInstance := Get(source);
    }
  }
}
