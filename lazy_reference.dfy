/** `RegisterableObject<T, TId, TData>.LazyReference`: a serialized id that
    is resolved against its family's registry on first use and then cached
    for good. */
module LazyReferences {
  import opened Util
  import opened Registerable

  class LazyReference<Id(==), D(==)> {
    /** The serialized `m_id`. */
    const mId: Option<Id>
    /** The cache `m_value`; `null` while unresolved. */
    var mValue: Entry?<Id>

    constructor (id: Option<Id>)
      ensures mId == id && mValue == null
    {
      mId := id;
      mValue := null;
    }

    /** `value`: a resolved reference returns its cache without consulting
        the registry; an unresolved one stores and returns `Get(m_id)`,
        so a `null` result leaves it unresolved. */
    method Value(registry: Registry<Id, D>) returns (v: Entry?<Id>)
      modifies this
      ensures old(mValue) != null ==> v == old(mValue)
      ensures old(mValue) == null ==> v == registry.GetEntry(mId)
      ensures mValue == v
      ensures [v] == Accesses(old(mValue), [registry.GetEntry(mId)])
    {
      if mValue == null {
        mValue := registry.GetEntry(mId);
      }
      v := mValue;
    }
  }

  /** The values returned by successive accesses to `value`, starting from
      cache `cache`, when the registry answers `fetched[i]` at the i-th
      access (the registry may be rebuilt between accesses). */
  function Accesses<Id>(cache: Entry?<Id>, fetched: seq<Entry?<Id>>): (vs: seq<Entry?<Id>>)
    ensures |vs| == |fetched|
    decreases |fetched|
  {
    if fetched == [] then []
    else
      var v := if cache == null then fetched[0] else cache;
      [v] + Accesses(v, fetched[1..])
  }

  /** The first non-null element of `s`, or `null`. */
  function FirstNonNull<Id>(s: seq<Entry?<Id>>): Entry?<Id>
    decreases |s|
  {
    if s == [] then null
    else if s[0] != null then s[0]
    else FirstNonNull(s[1..])
  }

  /** The k-th access returns the cache if there was one, and otherwise the
      first non-null answer of the registry up to and including that access. */
  lemma {:induction false} AccessesResolveFirstNonNull<Id>(cache: Entry?<Id>, fetched: seq<Entry?<Id>>, k: nat)
    requires k < |fetched|
    ensures Accesses(cache, fetched)[k] == if cache != null then cache else FirstNonNull(fetched[..k + 1])
    decreases k
  {
    var v := if cache == null then fetched[0] else cache;
    assert Accesses(cache, fetched) == [v] + Accesses(v, fetched[1..]);
    if k == 0 {
      assert fetched[..1] == [fetched[0]];
      assert fetched[..1][1..] == [];
    } else {
      AccessesResolveFirstNonNull(v, fetched[1..], k - 1);
      assert fetched[1..][..k] == fetched[..k + 1][1..];
    }
  }

  /** A non-null first answer stays the first whatever follows it. */
  lemma {:induction false} FirstNonNullExtend<Id>(s: seq<Entry?<Id>>, t: seq<Entry?<Id>>)
    requires FirstNonNull(s) != null
    ensures FirstNonNull(s + t) == FirstNonNull(s)
    decreases |s|
  {
    assert (s + t)[0] == s[0];
    if s[0] == null {
      assert (s + t)[1..] == s[1..] + t;
      FirstNonNullExtend(s[1..], t);
    }
  }

  /** Sticky: once an access returns a non-null entry, every later access
      returns that same entry, whatever the registry answers, even after a
      rebuild that dropped it. */
  lemma AccessesSticky<Id>(cache: Entry?<Id>, fetched: seq<Entry?<Id>>, j: nat, k: nat)
    requires j <= k < |fetched| && Accesses(cache, fetched)[j] != null
    ensures Accesses(cache, fetched)[k] == Accesses(cache, fetched)[j]
  {
    AccessesResolveFirstNonNull(cache, fetched, j);
    AccessesResolveFirstNonNull(cache, fetched, k);
    if cache == null {
      assert fetched[..k + 1] == fetched[..j + 1] + fetched[j + 1..k + 1];
      FirstNonNullExtend(fetched[..j + 1], fetched[j + 1..k + 1]);
    }
  }

  /** Retry: while the registry answers `null`, an unresolved reference stays
      unresolved, and the first non-null answer is what it then returns. */
  lemma AccessesRetry<Id>(fetched: seq<Entry?<Id>>, k: nat)
    requires k < |fetched| && fetched[k] != null
    requires forall j :: 0 <= j < k ==> fetched[j] == null
    ensures forall j :: 0 <= j < k ==> Accesses(null, fetched)[j] == null
    ensures Accesses(null, fetched)[k] == fetched[k]
  {
    forall j | 0 <= j < k
      ensures Accesses(null, fetched)[j] == null
    {
      AccessesResolveFirstNonNull(null, fetched, j);
      NullPrefix(fetched[..j + 1]);
    }
    AccessesResolveFirstNonNull(null, fetched, k);
    assert fetched[..k + 1] == fetched[..k] + [fetched[k]];
    NullPrefix(fetched[..k]);
    NullThen(fetched[..k], fetched[k]);
  }

  /** A sequence of nulls has no first non-null element. */
  lemma {:induction false} NullPrefix<Id>(s: seq<Entry?<Id>>)
    requires forall j :: 0 <= j < |s| ==> s[j] == null
    ensures FirstNonNull(s) == null
    decreases |s|
  {
    if s != [] {
      NullPrefix(s[1..]);
    }
  }

  /** After only nulls, the first non-null element is the next one. */
  lemma {:induction false} NullThen<Id>(s: seq<Entry?<Id>>, e: Entry<Id>)
    requires forall j :: 0 <= j < |s| ==> s[j] == null
    ensures FirstNonNull(s + [e]) == e
    decreases |s|
  {
    if s == [] {
      assert [] + [e] == [e];
    } else {
      assert (s + [e])[1..] == s[1..] + [e];
      NullThen(s[1..], e);
    }
  }
}
