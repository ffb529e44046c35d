/** `RegistryInitializer` and `SingletonInitializer`: at start-up, walk every
    loaded type's base-type chain to the first closed specialization of the
    generic base, and call each such family's `Initialize` once. */
module Startup {
  import opened Util

  /** The generic type definitions the walk looks for. */
  datatype GenericDefinition =
    | RegisterableObjectDefinition   // RegisterableObject<,,>
    | SingletonObjectDefinition      // SingletonObject<>
    | OtherDefinition(name: string)

  /** What the walk reads of a `System.Type`. `genericDefinition` is the
      answer of `GetGenericTypeDefinition()` for a generic type. */
  datatype ClrType = ClrType(
    fullName: string,
    isObject: bool,
    isGenericType: bool,
    containsGenericParameters: bool,
    genericDefinition: Option<GenericDefinition>)

  /** A loaded type, given by its chain of base types: `BaseType`, then its
      `BaseType`, and so on; the chain ends where `BaseType` is null. */
  type BaseChain = seq<ClrType>

  /** `t` is a closed specialization of the generic definition `def`. */
  predicate IsClosedFamily(t: ClrType, def: GenericDefinition) {
    t.isGenericType && !t.containsGenericParameters && t.genericDefinition == Some(def)
  }

  /** The family a type belongs to: the first base type, before `object`,
      that is a closed specialization of `def`. */
  function FamilyOf(chain: BaseChain, def: GenericDefinition): (f: Option<ClrType>)
    ensures f.Some? <==> exists k :: 0 <= k < |chain| && IsClosedFamily(chain[k], def) &&
                                     forall j :: 0 <= j <= k ==> !chain[j].isObject
    ensures f.Some? ==> exists k :: 0 <= k < |chain| && chain[k] == f.value && IsClosedFamily(f.value, def) &&
                                    !chain[k].isObject &&
                                    forall j :: 0 <= j < k ==> !chain[j].isObject && !IsClosedFamily(chain[j], def)
    decreases |chain|
  {
    if chain == [] || chain[0].isObject then None
    else if IsClosedFamily(chain[0], def) then Some(chain[0])
    else FamilyOf(chain[1..], def)
  }

  /** The families whose `Initialize` is called, in call order: each type's
      family, the first time it is met. */
  function InitOrder(types: seq<BaseChain>, def: GenericDefinition): seq<ClrType>
    decreases |types|
  {
    if types == [] then []
    else
      var earlier := InitOrder(types[..|types| - 1], def);
      match FamilyOf(types[|types| - 1], def)
      case Some(f) => if f in earlier then earlier else earlier + [f]
      case None => earlier
  }

  /** Exactly once: no family is initialized twice, and the families
      initialized are exactly the families of the loaded types. */
  lemma {:induction false} InitOrderExactlyOnce(types: seq<BaseChain>, def: GenericDefinition)
    ensures NoDuplicates(InitOrder(types, def))
    ensures forall f :: f in InitOrder(types, def) <==> exists t :: t in types && FamilyOf(t, def) == Some(f)
    decreases |types|
  {
    if types != [] {
      var init := types[..|types| - 1];
      var last := types[|types| - 1];
      InitOrderExactlyOnce(init, def);
      assert types == init + [last];
      forall f
        ensures f in InitOrder(types, def) <==> exists t :: t in types && FamilyOf(t, def) == Some(f)
      {
        if f in InitOrder(types, def) && FamilyOf(last, def) != Some(f) {
          var t :| t in init && FamilyOf(t, def) == Some(f);
          assert t in types;
        }
        if exists t :: t in types && FamilyOf(t, def) == Some(f) {
          var t :| t in types && FamilyOf(t, def) == Some(f);
          if t != last {
            assert t in init;
          }
        }
      }
    }
  }

  /** The walk: for each type, climb its base chain until null or `object`;
      at the first closed specialization of `def`, call its `Initialize` if
      the set of seen families did not hold it yet, then stop climbing.
      Returns the families whose `Initialize` was called, in order. */
  method InitializeFamilies(types: seq<BaseChain>, def: GenericDefinition) returns (invoked: seq<ClrType>)
    ensures invoked == InitOrder(types, def)
  {
    var seen: set<ClrType> := {};
    invoked := [];
    for i := 0 to |types|
      invariant invoked == InitOrder(types[..i], def)
      invariant forall f :: f in seen <==> f in invoked
    {
      var chain := types[i];
      assert types[..i + 1] == types[..i] + [chain];
      var j := 0;
      while j < |chain| && !chain[j].isObject
        invariant 0 <= j <= |chain|
        invariant FamilyOf(chain, def) == FamilyOf(chain[j..], def)
        invariant invoked == InitOrder(types[..i], def)
        invariant forall f :: f in seen <==> f in invoked
      {
        if IsClosedFamily(chain[j], def) {
          if chain[j] !in seen {
            seen := seen + {chain[j]};
            invoked := invoked + [chain[j]];
          }
          break;
        }
        assert chain[j..][1..] == chain[j + 1..];
        j := j + 1;
      }
    }
    assert types[..|types|] == types;
  }

  /** `RegistryInitializer.Initialize`: the walk for `RegisterableObject<,,>`. */
  method RegistryInitializerInitialize(types: seq<BaseChain>) returns (invoked: seq<ClrType>)
    ensures NoDuplicates(invoked)
    ensures forall f :: f in invoked <==> exists t :: t in types && FamilyOf(t, RegisterableObjectDefinition) == Some(f)
  {
    invoked := InitializeFamilies(types, RegisterableObjectDefinition);
    InitOrderExactlyOnce(types, RegisterableObjectDefinition);
  }

  /** `SingletonInitializer.Initialize`: the walk for `SingletonObject<>`. */
  method SingletonInitializerInitialize(types: seq<BaseChain>) returns (invoked: seq<ClrType>)
    ensures NoDuplicates(invoked)
    ensures forall f :: f in invoked <==> exists t :: t in types && FamilyOf(t, SingletonObjectDefinition) == Some(f)
  {
    invoked := InitializeFamilies(types, SingletonObjectDefinition);
    InitOrderExactlyOnce(types, SingletonObjectDefinition);
  }
}
