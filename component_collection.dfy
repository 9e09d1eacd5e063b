/** `BasicComponentCollection` (Walgelijk/Entities/BasicComponentCollection.cs):
    four indexes over the (component, entity) attachments of a scene, kept
    in step by every operation.

    Components are objects compared by reference; a `Component` value stands
    for one object: `Id` is its identity and `Type` its runtime type. .NET's
    `Type.IsAssignableTo` becomes a relation `sub` on type tags, with
    `sub(a, b)` meaning that `a` is assignable to `b`; `IsInstanceOfType(c)`
    is then `sub(c.Type, type)`. */
module Components {
  import opened Common

  type Entity = int
  type TypeTag = nat

  /** `from.IsAssignableTo(to)`. */
  type Subtyping = (TypeTag, TypeTag) -> bool

  /** Every type is assignable to itself. */
  ghost predicate Reflexive(sub: Subtyping)
  {
    forall t: TypeTag :: sub(t, t)
  }

  datatype Component = Component(Id: nat, Type: TypeTag)

  /** One attachment: a component and the entity it belongs to. */
  datatype EntityWithAnything = EntityWithAnything(Component: Component, Entity: Entity)

  datatype CollectionError =
    | DuplicateExactType   // `Dictionary.Add` of a type the entity already holds
    | KeyNotFound          // a dictionary indexer on an absent key
    | RemoveFailed         // "FAILED TO REMOVE"

  // --------------------------------------------------------- sequence filters
  // Each filter is defined from the last element backwards, so that
  // appending to a list is one unfolding.

  /** The attachments whose component is assignable to `t`, in order. */
  function OfType(pairs: seq<EntityWithAnything>, t: TypeTag, sub: Subtyping): (r: seq<EntityWithAnything>)
    ensures |r| <= |pairs|
  {
    if pairs == [] then []
    else if sub(Last(pairs).Component.Type, t) then OfType(Init(pairs), t, sub) + [Last(pairs)]
    else OfType(Init(pairs), t, sub)
  }

  /** The components attached to `e`, in order. */
  function ComponentsOf(pairs: seq<EntityWithAnything>, e: Entity): (r: seq<Component>)
    ensures |r| <= |pairs|
  {
    if pairs == [] then []
    else if Last(pairs).Entity == e then ComponentsOf(Init(pairs), e) + [Last(pairs).Component]
    else ComponentsOf(Init(pairs), e)
  }

  /** The attachments that do not belong to `e`. */
  function WithoutEntity(pairs: seq<EntityWithAnything>, e: Entity): (r: seq<EntityWithAnything>)
    ensures |r| <= |pairs|
  {
    if pairs == [] then []
    else if Last(pairs).Entity != e then WithoutEntity(Init(pairs), e) + [Last(pairs)]
    else WithoutEntity(Init(pairs), e)
  }

  /** `ShouldRemove`: the component is an instance of `t` and belongs to `e`. */
  predicate ShouldRemove(p: EntityWithAnything, t: TypeTag, e: Entity, sub: Subtyping)
  {
    sub(p.Component.Type, t) && p.Entity == e
  }

  /** The attachments `ShouldRemove` spares. */
  function WithoutMatching(pairs: seq<EntityWithAnything>, t: TypeTag, e: Entity, sub: Subtyping): (r: seq<EntityWithAnything>)
    ensures |r| <= |pairs|
  {
    if pairs == [] then []
    else if !ShouldRemove(Last(pairs), t, e, sub) then WithoutMatching(Init(pairs), t, e, sub) + [Last(pairs)]
    else WithoutMatching(Init(pairs), t, e, sub)
  }

  /** The entity's components that are not instances of `t`. */
  function KeepUnlessInstance(cs: seq<Component>, t: TypeTag, sub: Subtyping): (r: seq<Component>)
    ensures |r| <= |cs|
  {
    if cs == [] then []
    else if !sub(Last(cs).Type, t) then KeepUnlessInstance(Init(cs), t, sub) + [Last(cs)]
    else KeepUnlessInstance(Init(cs), t, sub)
  }

  /** The filter the entity list is given as written: it drops the
      components whose type `t` is assignable to, that is the supertypes of
      `t`. */
  function KeepUnlessSupertype(cs: seq<Component>, t: TypeTag, sub: Subtyping): (r: seq<Component>)
    ensures |r| <= |cs|
  {
    if cs == [] then []
    else if !sub(t, Last(cs).Type) then KeepUnlessSupertype(Init(cs), t, sub) + [Last(cs)]
    else KeepUnlessSupertype(Init(cs), t, sub)
  }

  // ----------------------------------------------------------- exact types

  /** The exact types of a list of components. */
  function TypesOf(cs: seq<Component>): set<TypeTag>
  {
    if cs == [] then {} else TypesOf(Init(cs)) + {Last(cs).Type}
  }

  /** No two components of the list share an exact type. */
  predicate DistinctTypes(cs: seq<Component>)
  {
    cs == [] || (DistinctTypes(Init(cs)) && Last(cs).Type !in TypesOf(Init(cs)))
  }

  /** The per-entity dictionary from exact type to component, built in
      attachment order. */
  function TypeMap(cs: seq<Component>): map<TypeTag, Component>
  {
    if cs == [] then map[] else TypeMap(Init(cs))[Last(cs).Type := Last(cs)]
  }

  // -------------------------------------------------------------- the state

  /** The four indexes: `allComponents`, `byType`, `byEntity` and
      `byEntityByType`. */
  datatype Indexes = Indexes(
    all: seq<EntityWithAnything>,
    byType: map<TypeTag, seq<EntityWithAnything>>,
    byEntity: map<Entity, seq<Component>>,
    byEntityByType: map<Entity, map<TypeTag, Component>>)

  /** Every per-type list holds exactly the attachments assignable to its
      type, in attachment order. */
  predicate TypeListsCoherent(ix: Indexes, sub: Subtyping)
  {
    forall t :: t in ix.byType ==> ix.byType[t] == OfType(ix.all, t, sub)
  }

  /** Every entity with an attachment has a non-empty list of its
      components, in attachment order, and no other entity has a list. */
  predicate EntityListsCoherent(ix: Indexes)
  {
    && (forall e :: e in ix.byEntity ==> ix.byEntity[e] == ComponentsOf(ix.all, e) && ix.byEntity[e] != [])
    && (forall p :: p in ix.all ==> p.Entity in ix.byEntity)
  }

  /** Every entity with a list has a dictionary that maps each exact type
      among its components to that component, and its components have
      distinct exact types. */
  predicate ExactMapsCoherent(ix: Indexes)
  {
    && ix.byEntityByType.Keys == ix.byEntity.Keys
    && (forall e :: e in ix.byEntityByType ==>
          DistinctTypes(ix.byEntity[e]) && ix.byEntityByType[e] == TypeMap(ix.byEntity[e]))
  }

  predicate Coherent(ix: Indexes, sub: Subtyping)
  {
    TypeListsCoherent(ix, sub) && EntityListsCoherent(ix) && ExactMapsCoherent(ix)
  }

  /** The entity already holds a component of exact type `t`. */
  predicate HasExactType(ix: Indexes, e: Entity, t: TypeTag)
  {
    e in ix.byEntityByType && t in ix.byEntityByType[e]
  }

  /** `byEntity` after appending `c` to the list of `e`. */
  function AppendComponent(byEntity: map<Entity, seq<Component>>, e: Entity, c: Component): map<Entity, seq<Component>>
  {
    byEntity[e := (if e in byEntity then byEntity[e] else []) + [c]]
  }

  /** `byEntityByType` after mapping the exact type of `c` to `c` for `e`. */
  function AddExact(byEntityByType: map<Entity, map<TypeTag, Component>>, e: Entity, c: Component): map<Entity, map<TypeTag, Component>>
  {
    byEntityByType[e := (if e in byEntityByType then byEntityByType[e] else map[])[c.Type := c]]
  }

  /** `byType` after appending `p` to every list whose type it is assignable
      to. */
  function AddToTypeLists(byType: map<TypeTag, seq<EntityWithAnything>>, p: EntityWithAnything, sub: Subtyping): map<TypeTag, seq<EntityWithAnything>>
  {
    map t | t in byType :: if sub(p.Component.Type, t) then byType[t] + [p] else byType[t]
  }

  /** The indexes after a successful `Add`. */
  function AfterAdd(ix: Indexes, c: Component, e: Entity, sub: Subtyping): Indexes
  {
    var p := EntityWithAnything(c, e);
    Indexes(ix.all + [p], AddToTypeLists(ix.byType, p, sub),
            AppendComponent(ix.byEntity, e, c), AddExact(ix.byEntityByType, e, c))
  }

  /** The indexes after `DeleteEntity`. */
  function AfterDelete(ix: Indexes, e: Entity): Indexes
  {
    Indexes(WithoutEntity(ix.all, e),
            WithoutEntityInLists(ix.byType, e),
            ix.byEntity - {e}, ix.byEntityByType - {e})
  }

  /** `byType` after `DeleteEntity`: every list loses the entity's
      attachments. */
  function WithoutEntityInLists(byType: map<TypeTag, seq<EntityWithAnything>>, e: Entity): map<TypeTag, seq<EntityWithAnything>>
  {
    map t | t in byType :: WithoutEntity(byType[t], e)
  }

  /** `byType` after `RemoveComponentOfType` as written: only the list of the
      given type loses the entity's attachments. */
  function PruneTypeListAsWritten(byType: map<TypeTag, seq<EntityWithAnything>>, t: TypeTag, e: Entity): map<TypeTag, seq<EntityWithAnything>>
  {
    if t in byType then byType[t := WithoutEntity(byType[t], e)] else byType
  }

  /** `byType` after `RemoveComponentOfType` with every list pruned: the list
      of the given type as written, every other list of the attachments
      `ShouldRemove` picks. */
  function PruneTypeLists(byType: map<TypeTag, seq<EntityWithAnything>>, t: TypeTag, e: Entity, sub: Subtyping): map<TypeTag, seq<EntityWithAnything>>
  {
    map u | u in byType :: if u == t then WithoutEntity(byType[u], e) else WithoutMatching(byType[u], t, e, sub)
  }

  /** `byEntity` after the removal: the entity's list is filtered, and
      dropped once empty. */
  function PruneEntityList(byEntity: map<Entity, seq<Component>>, t: TypeTag, e: Entity, sub: Subtyping): map<Entity, seq<Component>>
  {
    if e !in byEntity then byEntity
    else
      var l := KeepUnlessInstance(byEntity[e], t, sub);
      if l == [] then byEntity - {e} else byEntity[e := l]
  }

  /** `byEntityByType` after the removal: the exact type is removed, and the
      entity's dictionary dropped once empty. */
  function PruneExact(byEntityByType: map<Entity, map<TypeTag, Component>>, t: TypeTag, e: Entity): map<Entity, map<TypeTag, Component>>
  {
    if e !in byEntityByType then byEntityByType
    else
      var m := byEntityByType[e] - {t};
      if m == map[] then byEntityByType - {e} else byEntityByType[e := m]
  }

  /** The indexes after `RemoveComponentOfType`. */
  function AfterRemove(ix: Indexes, t: TypeTag, e: Entity, sub: Subtyping): Indexes
  {
    Indexes(WithoutMatching(ix.all, t, e, sub), PruneTypeLists(ix.byType, t, e, sub),
            PruneEntityList(ix.byEntity, t, e, sub), PruneExact(ix.byEntityByType, t, e))
  }

  /** What `RemoveComponentOfType` reports: each of the four indexes had
      something to remove (a missing per-type list counts as success). */
  predicate RemoveSucceeds(ix: Indexes, t: TypeTag, e: Entity, sub: Subtyping)
  {
    && |WithoutMatching(ix.all, t, e, sub)| < |ix.all|
    && (t in ix.byType ==> |WithoutEntity(ix.byType[t], e)| < |ix.byType[t]|)
    && e in ix.byEntity && |KeepUnlessInstance(ix.byEntity[e], t, sub)| < |ix.byEntity[e]|
    && HasExactType(ix, e, t)
  }

  /** `byEntity` after `RemoveComponentOfType` as written: the entity's list
      loses the components whose type `t` is assignable to, and is dropped
      once empty. */
  function PruneEntityListAsWritten(byEntity: map<Entity, seq<Component>>, t: TypeTag, e: Entity, sub: Subtyping): map<Entity, seq<Component>>
  {
    if e !in byEntity then byEntity
    else
      var l := KeepUnlessSupertype(byEntity[e], t, sub);
      if l == [] then byEntity - {e} else byEntity[e := l]
  }

  /** The indexes after `RemoveComponentOfType` as written: the set loses
      the instances of `t` the entity holds, only the list of `t` itself
      is pruned, and the entity list is filtered by supertypes of `t`. */
  function AfterRemoveAsWritten(ix: Indexes, t: TypeTag, e: Entity, sub: Subtyping): Indexes
  {
    Indexes(WithoutMatching(ix.all, t, e, sub), PruneTypeListAsWritten(ix.byType, t, e),
            PruneEntityListAsWritten(ix.byEntity, t, e, sub), PruneExact(ix.byEntityByType, t, e))
  }

  /** What `RemoveComponentOfType` as written reports: each of the four
      indexes had something to remove (a missing per-type list counts as
      success). */
  predicate RemoveSucceedsAsWritten(ix: Indexes, t: TypeTag, e: Entity, sub: Subtyping)
  {
    && |WithoutMatching(ix.all, t, e, sub)| < |ix.all|
    && (t in ix.byType ==> |WithoutEntity(ix.byType[t], e)| < |ix.byType[t]|)
    && e in ix.byEntity && |KeepUnlessSupertype(ix.byEntity[e], t, sub)| < |ix.byEntity[e]|
    && HasExactType(ix, e, t)
  }

  /** The removals where the code as written and the corrected removal
      agree: every component of the entity that is an instance or a
      supertype of `t` has exact type `t`, and no per-type list other than
      that of `t` holds an attachment `ShouldRemove` picks. */
  predicate RemovalAgrees(ix: Indexes, t: TypeTag, e: Entity, sub: Subtyping)
  {
    && (forall p :: p in ix.all && p.Entity == e && (sub(p.Component.Type, t) || sub(t, p.Component.Type)) ==>
          p.Component.Type == t)
    && (forall u, p :: u in ix.byType && u != t && p in ix.byType[u] ==> !ShouldRemove(p, t, e, sub))
  }

  /** Among the entity's components, only those of exact type `t` are
      instances of `t`: the entity holds no component of a strict subtype
      of `t`. */
  predicate NoStrictSubtypeOn(ix: Indexes, t: TypeTag, e: Entity, sub: Subtyping)
  {
    forall p :: p in ix.all && p.Entity == e && sub(p.Component.Type, t) ==> p.Component.Type == t
  }

  // ------------------------------------------------------------ the class

  class BasicComponentCollection {
    var allComponents: seq<EntityWithAnything>
    var byType: map<TypeTag, seq<EntityWithAnything>>
    var byEntity: map<Entity, seq<Component>>
    var byEntityByType: map<Entity, map<TypeTag, Component>>
    /** `Type.IsAssignableTo`. */
    const isAssignableTo: Subtyping

    function State(): Indexes
      reads this
    {
      Indexes(allComponents, byType, byEntity, byEntityByType)
    }

    ghost predicate Valid()
      reads this
    {
      Reflexive(isAssignableTo) && Coherent(State(), isAssignableTo)
    }

    constructor(sub: Subtyping)
      requires Reflexive(sub)
      ensures Valid() && isAssignableTo == sub
      ensures State() == Indexes([], map[], map[], map[])
    {
      allComponents := [];
      byType := map[];
      byEntity := map[];
      byEntityByType := map[];
      isAssignableTo := sub;
    }

    /** `Add`. The attachment is recorded in `allComponents` and `byEntity`
        before the exact-type dictionary refuses a second component of the
        same exact type, so a refused `Add` leaves those two updated and
        the per-type lists untouched. */
    method Add(component: Component, entity: Entity) returns (r: Result<(), CollectionError>)
      modifies this
      ensures r.Success? <==> !HasExactType(old(State()), entity, component.Type)
      ensures r.Success? ==> State() == AfterAdd(old(State()), component, entity, isAssignableTo)
      ensures r.Failure? ==> r.error == DuplicateExactType && State() == old(State()).(
        all := old(allComponents) + [EntityWithAnything(component, entity)],
        byEntity := AppendComponent(old(byEntity), entity, component))
      ensures old(Valid()) && r.Success? ==> Valid()
    {
      var a := EntityWithAnything(component, entity);
      var componentType := component.Type;
      ghost var before := State();
      allComponents := allComponents + [a];

      if entity in byEntity {
        byEntity := byEntity[entity := byEntity[entity] + [component]];
      } else {
        byEntity := byEntity[entity := [component]];
        assert [] + [component] == [component];
      }

      if entity in byEntityByType {
        if componentType in byEntityByType[entity] {
          return Failure(DuplicateExactType);
        }
        byEntityByType := byEntityByType[entity := byEntityByType[entity][componentType := component]];
      } else {
        byEntityByType := byEntityByType[entity := map[componentType := component]];
      }

      byType := AppendToTypeLists(byType, a, isAssignableTo);
      AddKeepsCoherentIf(before, component, entity, isAssignableTo);
      return Success(());
    }

    /** `TryCreateNewTypeList`: when the type has no list yet, build it from
        the attachments assignable to the type and store it. */
    method TryCreateNewTypeList(t: TypeTag) returns (created: bool, list: Option<seq<EntityWithAnything>>)
      modifies this
      ensures created <==> t !in old(byType)
      ensures !created ==> list == None && State() == old(State())
      ensures created ==> list == Some(OfType(allComponents, t, isAssignableTo))
      ensures created ==> State() == old(State()).(byType := old(byType)[t := list.value])
      ensures old(Valid()) ==> Valid()
    {
      if t in byType {
        return false, None;
      }
      var l: seq<EntityWithAnything> := [];
      for i := 0 to |allComponents|
        invariant l == OfType(allComponents[..i], t, isAssignableTo)
      {
        assert allComponents[..i + 1][..i] == allComponents[..i];
        if isAssignableTo(allComponents[i].Component.Type, t) {
          l := l + [allComponents[i]];
        }
      }
      assert allComponents[..|allComponents|] == allComponents;
      byType := byType[t := l];
      return true, Some(l);
    }

    /** `GetAllComponentsOfType` without its typed-view cache: the list of
        the type, created on first use. */
    method ComponentsOfType(t: TypeTag) returns (list: seq<EntityWithAnything>)
      modifies this
      ensures old(Valid()) ==> Valid() && list == OfType(allComponents, t, isAssignableTo)
      ensures allComponents == old(allComponents) && byEntity == old(byEntity)
      ensures byEntityByType == old(byEntityByType)
      ensures t in byType && list == byType[t]
      ensures forall u :: u in old(byType) ==> u in byType && byType[u] == old(byType)[u]
    {
      if t !in byType {
        var _, _ := TryCreateNewTypeList(t);
      }
      list := byType[t];
    }

    /** `GetComponentFrom<T>`: the entity's component of exact type `t`; an
        absent entity or type is the indexer's `KeyNotFoundException`. */
    function GetComponentFrom(entity: Entity, t: TypeTag): (r: Result<Component, CollectionError>)
      reads this
      ensures r.Failure? <==> !HasExactType(State(), entity, t)
      ensures r.Failure? ==> r.error == KeyNotFound
      ensures Valid() && r.Success? ==>
        r.value.Type == t && EntityWithAnything(r.value, entity) in allComponents
      ensures Valid() && r.Failure? ==>
        forall p :: p in allComponents && p.Entity == entity ==> p.Component.Type != t
    {
      ExactLookup(State(), entity, t, isAssignableTo);
      if entity in byEntityByType && t in byEntityByType[entity] then Success(byEntityByType[entity][t])
      else Failure(KeyNotFound)
    }

    /** `TryGetComponentFrom<T>`: as `GetComponentFrom`, with `None` for
        `false` and a null component. */
    function TryGetComponentFrom(entity: Entity, t: TypeTag): (r: Option<Component>)
      reads this
      ensures r.Some? <==> GetComponentFrom(entity, t).Success?
      ensures r.Some? ==> r.value == GetComponentFrom(entity, t).value
    {
      if entity in byEntityByType && t in byEntityByType[entity] then Some(byEntityByType[entity][t])
      else None
    }

    /** `GetAllComponentsFrom`: the entity's components in attachment order,
        empty for an entity without any. */
    function GetAllComponentsFrom(entity: Entity): (r: seq<Component>)
      reads this
      ensures Valid() ==> r == ComponentsOf(allComponents, entity)
      ensures Valid() ==> forall c :: c in r <==> EntityWithAnything(c, entity) in allComponents
    {
      EntityListLookup(State(), entity);
      if entity in byEntity then byEntity[entity] else []
    }

    /** `GetEntityFromComponent`: the entity of an attachment of `comp`, or
        `false` and entity 0. */
    method GetEntityFromComponent(comp: Component) returns (found: bool, entity: Entity)
      ensures found <==> exists p :: p in allComponents && p.Component == comp
      ensures found ==> EntityWithAnything(comp, entity) in allComponents
      ensures !found ==> entity == 0
    {
      entity := 0;
      for i := 0 to |allComponents|
        invariant forall j :: 0 <= j < i ==> allComponents[j].Component != comp
      {
        if allComponents[i].Component == comp {
          entity := allComponents[i].Entity;
          return true, entity;
        }
      }
      return false, entity;
    }

    /** `DeleteEntity`: every attachment of the entity leaves all four
        indexes. The result is true when `allComponents`, `byEntityByType`
        and `byEntity` each had something of the entity. */
    method DeleteEntity(entity: Entity) returns (c: bool)
      modifies this
      ensures c <==> ((exists p :: p in old(allComponents) && p.Entity == entity)
                      && entity in old(byEntityByType) && entity in old(byEntity))
      ensures State() == AfterDelete(old(State()), entity)
      ensures old(Valid()) ==> Valid()
      ensures Valid() ==> GetAllComponentsFrom(entity) == []
    {
      ghost var before := State();
      var remaining := WithoutEntity(allComponents, entity);
      WithoutEntityShrinks(allComponents, entity);
      c := |remaining| < |allComponents|;
      allComponents := remaining;

      byType := DeleteFromTypeLists(byType, entity);

      c := c && entity in byEntityByType;
      byEntityByType := byEntityByType - {entity};
      c := c && entity in byEntity;
      byEntity := byEntity - {entity};
      DeleteKeepsCoherentIf(before, entity, isAssignableTo);
    }

    /** `RemoveComponentOfType`: detach the entity's components that are
        instances of `t`, as the code does it: only the list of `t` itself
        is pruned, and the entity list is filtered by supertypes of `t`.
        Every index is updated before a failure is reported, so a failed
        removal still changes the state. Where the code agrees with the
        corrected removal `AfterRemove`, the indexes stay coherent. */
    method RemoveComponentOfType(t: TypeTag, entity: Entity) returns (r: Result<bool, CollectionError>)
      modifies this
      ensures r.Success? <==> RemoveSucceedsAsWritten(old(State()), t, entity, isAssignableTo)
      ensures r.Success? ==> r.value
      ensures r.Failure? ==> r.error == RemoveFailed
      ensures State() == AfterRemoveAsWritten(old(State()), t, entity, isAssignableTo)
      ensures old(Valid()) && RemovalAgrees(old(State()), t, entity, isAssignableTo) ==>
        Valid() && State() == AfterRemove(old(State()), t, entity, isAssignableTo)
    {
      ghost var before := State();
      var success := true;
      var remaining := WithoutMatching(allComponents, t, entity, isAssignableTo);
      success := success && |remaining| < |allComponents|;
      allComponents := remaining;

      if t in byType {
        success := success && |WithoutEntity(byType[t], entity)| < |byType[t]|;
      }
      byType := PruneTypeListAsWritten(byType, t, entity);

      var entityLists, hadSupertype := PruneEntityLists(byEntity, t, entity, isAssignableTo);
      success := success && hadSupertype;
      byEntity := entityLists;

      var exactMaps, hadExact := PruneExactMaps(byEntityByType, t, entity);
      success := success && hadExact;
      byEntityByType := exactMaps;

      RemoveAsWrittenKeepsCoherentIf(before, t, entity, isAssignableTo);
      if !success {
        return Failure(RemoveFailed);
      }
      return Success(success);
    }
  }

  /** `RemoveComponentOfType`'s update of `byEntity`: the entity's list
      loses the components whose type `t` is assignable to and is dropped
      once empty; `removed` tells whether the list existed and lost
      something. */
  method PruneEntityLists(byEntity: map<Entity, seq<Component>>, t: TypeTag, e: Entity, sub: Subtyping)
    returns (r: map<Entity, seq<Component>>, removed: bool)
    ensures r == PruneEntityListAsWritten(byEntity, t, e, sub)
    ensures removed <==> e in byEntity && |KeepUnlessSupertype(byEntity[e], t, sub)| < |byEntity[e]|
  {
    r := byEntity;
    removed := false;
    if e in byEntity {
      var l := KeepUnlessSupertype(byEntity[e], t, sub);
      removed := |l| < |byEntity[e]|;
      if l == [] {
        r := byEntity - {e};
      } else {
        r := byEntity[e := l];
      }
    }
  }

  /** `RemoveComponentOfType`'s update of `byEntityByType`: the entity's
      dictionary loses the key `t` and is dropped once empty; `removed`
      tells whether the key was there. */
  method PruneExactMaps(byEntityByType: map<Entity, map<TypeTag, Component>>, t: TypeTag, e: Entity)
    returns (r: map<Entity, map<TypeTag, Component>>, removed: bool)
    ensures r == PruneExact(byEntityByType, t, e)
    ensures removed <==> e in byEntityByType && t in byEntityByType[e]
  {
    r := byEntityByType;
    removed := false;
    if e in byEntityByType {
      removed := t in byEntityByType[e];
      var m := byEntityByType[e] - {t};
      if m == map[] {
        r := byEntityByType - {e};
      } else {
        r := byEntityByType[e := m];
      }
    }
  }

  /** `Add`'s loop over `byType`: the attachment joins every list whose
      type its component is assignable to. */
  method AppendToTypeLists(byType: map<TypeTag, seq<EntityWithAnything>>, a: EntityWithAnything, sub: Subtyping)
    returns (r: map<TypeTag, seq<EntityWithAnything>>)
    ensures r == AddToTypeLists(byType, a, sub)
  {
    r := byType;
    var keys := byType.Keys;
    while keys != {}
      invariant keys <= byType.Keys && r.Keys == byType.Keys
      invariant forall t :: t in keys ==> r[t] == byType[t]
      invariant forall t :: t in byType && t !in keys ==> r[t] == AddToTypeLists(byType, a, sub)[t]
      decreases keys
    {
      var target :| target in keys;
      if sub(a.Component.Type, target) {
        r := r[target := r[target] + [a]];
      }
      keys := keys - {target};
    }
  }

  /** `DeleteEntity`'s loop over `byType`. */
  method DeleteFromTypeLists(byType: map<TypeTag, seq<EntityWithAnything>>, e: Entity)
    returns (r: map<TypeTag, seq<EntityWithAnything>>)
    ensures r == WithoutEntityInLists(byType, e)
  {
    r := byType;
    var keys := byType.Keys;
    while keys != {}
      invariant keys <= byType.Keys && r.Keys == byType.Keys
      invariant forall t :: t in keys ==> r[t] == byType[t]
      invariant forall t :: t in byType && t !in keys ==> r[t] == WithoutEntity(byType[t], e)
      decreases keys
    {
      var t :| t in keys;
      var l := RemoveEntityBackwards(r[t], e);
      r := r[t := l];
      keys := keys - {t};
    }
  }

  /** `DeleteEntity`'s inner loop: walk a per-type list from the back and
      `RemoveAt` every attachment of the entity. */
  method RemoveEntityBackwards(list: seq<EntityWithAnything>, entity: Entity) returns (r: seq<EntityWithAnything>)
    ensures r == WithoutEntity(list, entity)
  {
    r := list;
    var i := |list| - 1;
    while i >= 0
      invariant -1 <= i < |list|
      invariant r == list[..i + 1] + WithoutEntity(list[i + 1..], entity)
    {
      WithoutEntityFrom(list, i, entity);
      assert r[..i] == list[..i] && r[i] == list[i] && r[i + 1..] == WithoutEntity(list[i + 1..], entity);
      if r[i].Entity == entity {
        r := r[..i] + r[i + 1..];
      } else {
        assert list[..i + 1] == list[..i] + [list[i]];
      }
      i := i - 1;
    }
    assert list[..0] == [] && list[0..] == list;
  }

  /** The attachments of `list[i..]` that stay: `list[i]` unless it is of
      the entity, then those of `list[i + 1..]`. */
  lemma WithoutEntityFrom(list: seq<EntityWithAnything>, i: nat, e: Entity)
    requires i < |list|
    ensures WithoutEntity(list[i..], e) == (if list[i].Entity == e then [] else [list[i]]) + WithoutEntity(list[i + 1..], e)
  {
    assert list[i..] == [list[i]] + list[i + 1..];
    WithoutEntityAppend([list[i]], list[i + 1..], e);
    assert Init([list[i]]) == [];
  }

  // --------------------------------------------------------------- lemmas

  lemma {:induction false} WithoutEntityAppend(a: seq<EntityWithAnything>, b: seq<EntityWithAnything>, e: Entity)
    ensures WithoutEntity(a + b, e) == WithoutEntity(a, e) + WithoutEntity(b, e)
    decreases |b|
  {
    if b == [] {
      assert a + b == a;
    } else {
      assert Init(a + b) == a + Init(b);
      assert Last(a + b) == Last(b);
      WithoutEntityAppend(a, Init(b), e);
    }
  }

  /** `RemoveWhere` removes something exactly when the entity has an
      attachment. */
  lemma {:induction false} WithoutEntityShrinks(pairs: seq<EntityWithAnything>, e: Entity)
    ensures |WithoutEntity(pairs, e)| < |pairs| <==> exists p :: p in pairs && p.Entity == e
  {
    if pairs != [] {
      WithoutEntityShrinks(Init(pairs), e);
      assert pairs == Init(pairs) + [Last(pairs)];
      if Last(pairs).Entity == e {
        assert Last(pairs) in pairs;
      } else if exists p :: p in pairs && p.Entity == e {
        var p :| p in pairs && p.Entity == e;
        assert p in Init(pairs);
      }
    }
  }

  /** The components of an entity are those attached to it. */
  lemma {:induction false} ComponentsOfMembers(pairs: seq<EntityWithAnything>, e: Entity)
    ensures forall c :: c in ComponentsOf(pairs, e) <==> EntityWithAnything(c, e) in pairs
  {
    if pairs != [] {
      ComponentsOfMembers(Init(pairs), e);
      assert pairs == Init(pairs) + [Last(pairs)];
    }
  }

  /** The exact-type dictionary has the list's types as keys and maps each
      to a component of that type in the list. */
  lemma {:induction false} TypeMapMembers(cs: seq<Component>)
    ensures TypeMap(cs).Keys == TypesOf(cs)
    ensures forall t :: t in TypeMap(cs) ==> TypeMap(cs)[t] in cs && TypeMap(cs)[t].Type == t
  {
    if cs != [] {
      TypeMapMembers(Init(cs));
      assert cs == Init(cs) + [Last(cs)];
    }
  }

  /** A type is among a list's types exactly when a component of the list
      has it. */
  lemma {:induction false} TypesOfMembers(cs: seq<Component>)
    ensures forall t :: t in TypesOf(cs) <==> exists c :: c in cs && c.Type == t
  {
    if cs != [] {
      TypesOfMembers(Init(cs));
      assert cs == Init(cs) + [Last(cs)];
      forall t | exists c :: c in cs && c.Type == t
        ensures t in TypesOf(cs)
      {
        var c :| c in cs && c.Type == t;
        if c != Last(cs) {
          assert c in Init(cs);
        }
      }
    }
  }

  /** Lookup by exact type in coherent indexes finds the component of that
      exact type attached to the entity, and fails only when there is
      none. */
  lemma ExactLookup(ix: Indexes, e: Entity, t: TypeTag, sub: Subtyping)
    ensures Coherent(ix, sub) && HasExactType(ix, e, t) ==>
      ix.byEntityByType[e][t].Type == t && EntityWithAnything(ix.byEntityByType[e][t], e) in ix.all
    ensures Coherent(ix, sub) && !HasExactType(ix, e, t) ==>
      forall p :: p in ix.all && p.Entity == e ==> p.Component.Type != t
  {
    if Coherent(ix, sub) {
      if e in ix.byEntity {
        TypeMapMembers(ix.byEntity[e]);
        TypesOfMembers(ix.byEntity[e]);
        ComponentsOfMembers(ix.all, e);
      }
    }
  }

  /** In coherent indexes, the entity's list is its attached components. */
  lemma EntityListLookup(ix: Indexes, e: Entity)
    ensures EntityListsCoherent(ix) ==>
      (if e in ix.byEntity then ix.byEntity[e] else []) == ComponentsOf(ix.all, e)
    ensures forall c :: c in ComponentsOf(ix.all, e) <==> EntityWithAnything(c, e) in ix.all
  {
    ComponentsOfMembers(ix.all, e);
    if ComponentsOf(ix.all, e) != [] {
      var c := ComponentsOf(ix.all, e)[0];
      assert EntityWithAnything(c, e) in ix.all;
    }
  }

  /** A list with a new type appended keeps its types distinct. */
  lemma DistinctAppend(cs: seq<Component>, c: Component)
    requires DistinctTypes(cs) && c.Type !in TypesOf(cs)
    ensures DistinctTypes(cs + [c]) && TypeMap(cs + [c]) == TypeMap(cs)[c.Type := c]
  {
    assert Init(cs + [c]) == cs;
  }

  /** `Add` of a component whose exact type the entity does not hold yet
      keeps the four indexes coherent. */
  lemma AddKeepsCoherent(ix: Indexes, c: Component, e: Entity, sub: Subtyping)
    requires Coherent(ix, sub) && !HasExactType(ix, e, c.Type)
    ensures Coherent(AfterAdd(ix, c, e, sub), sub)
  {
    AddKeepsTypeLists(ix, c, e, sub);
    AddKeepsEntityLists(ix, c, e, sub);
    AddKeepsExactMaps(ix, c, e, sub);
  }

  /** `Add` appends the attachment to exactly the lists of its supertypes. */
  lemma AddKeepsTypeLists(ix: Indexes, c: Component, e: Entity, sub: Subtyping)
    requires TypeListsCoherent(ix, sub)
    ensures TypeListsCoherent(AfterAdd(ix, c, e, sub), sub)
  {
    var p := EntityWithAnything(c, e);
    var ix' := AfterAdd(ix, c, e, sub);
    assert Init(ix.all + [p]) == ix.all;
    forall t | t in ix'.byType
      ensures ix'.byType[t] == OfType(ix'.all, t, sub)
    {
    }
  }

  /** `Add` appends the component to its entity's list, creating it. */
  lemma AddKeepsEntityLists(ix: Indexes, c: Component, e: Entity, sub: Subtyping)
    requires EntityListsCoherent(ix)
    ensures EntityListsCoherent(AfterAdd(ix, c, e, sub))
  {
    var p := EntityWithAnything(c, e);
    var all := ix.all + [p];
    var byEntity := AppendComponent(ix.byEntity, e, c);
    assert Init(all) == ix.all && Last(all) == p;
    EntityListLookup(ix, e);
    forall e' | e' in byEntity
      ensures byEntity[e'] == ComponentsOf(all, e') && byEntity[e'] != []
    {
    }
    forall q | q in all
      ensures q.Entity in byEntity
    {
      if q != p {
        assert q in ix.all;
      }
    }
  }

  /** `Add` of a new exact type keeps the entity's types distinct and its
      dictionary in step with its list. */
  lemma AddKeepsExactMaps(ix: Indexes, c: Component, e: Entity, sub: Subtyping)
    requires EntityListsCoherent(ix) && ExactMapsCoherent(ix) && !HasExactType(ix, e, c.Type)
    ensures ExactMapsCoherent(AfterAdd(ix, c, e, sub))
  {
    if e in ix.byEntity {
      TypeMapMembers(ix.byEntity[e]);
      DistinctAppend(ix.byEntity[e], c);
    } else {
      assert TypeMap([c]) == map[c.Type := c] by {
        assert Init([c]) == [];
      }
      assert DistinctTypes([c]) by {
        assert Init([c]) == [];
      }
    }
  }

  lemma AddKeepsCoherentIf(ix: Indexes, c: Component, e: Entity, sub: Subtyping)
    ensures Coherent(ix, sub) && !HasExactType(ix, e, c.Type) ==> Coherent(AfterAdd(ix, c, e, sub), sub)
  {
    if Coherent(ix, sub) && !HasExactType(ix, e, c.Type) {
      AddKeepsCoherent(ix, c, e, sub);
    }
  }

  /** Selecting by type and dropping an entity commute. */
  lemma {:induction false} OfTypeWithoutEntity(pairs: seq<EntityWithAnything>, t: TypeTag, e: Entity, sub: Subtyping)
    ensures OfType(WithoutEntity(pairs, e), t, sub) == WithoutEntity(OfType(pairs, t, sub), e)
  {
    if pairs != [] {
      OfTypeWithoutEntity(Init(pairs), t, e, sub);
      var p := Last(pairs);
      var w := WithoutEntity(Init(pairs), e);
      var o := OfType(Init(pairs), t, sub);
      if p.Entity != e {
        assert Init(w + [p]) == w;
      }
      if sub(p.Component.Type, t) {
        assert Init(o + [p]) == o;
      }
    }
  }

  /** Dropping an entity leaves the other entities' components alone. */
  lemma {:induction false} ComponentsOfWithoutEntity(pairs: seq<EntityWithAnything>, e: Entity, e': Entity)
    ensures ComponentsOf(WithoutEntity(pairs, e), e') == if e' == e then [] else ComponentsOf(pairs, e')
  {
    if pairs != [] {
      ComponentsOfWithoutEntity(Init(pairs), e, e');
      var w := WithoutEntity(Init(pairs), e);
      if Last(pairs).Entity != e {
        assert Init(w + [Last(pairs)]) == w;
      }
    }
  }

  /** What is left after dropping an entity is what was there, minus the
      entity's attachments. */
  lemma {:induction false} WithoutEntityMembers(pairs: seq<EntityWithAnything>, e: Entity)
    ensures forall p :: p in WithoutEntity(pairs, e) <==> p in pairs && p.Entity != e
  {
    if pairs != [] {
      WithoutEntityMembers(Init(pairs), e);
      assert pairs == Init(pairs) + [Last(pairs)];
    }
  }

  /** `DeleteEntity` keeps the four indexes coherent. */
  lemma DeleteKeepsCoherent(ix: Indexes, e: Entity, sub: Subtyping)
    requires Coherent(ix, sub)
    ensures Coherent(AfterDelete(ix, e), sub)
  {
    var ix' := AfterDelete(ix, e);
    forall t | t in ix'.byType
      ensures ix'.byType[t] == OfType(ix'.all, t, sub)
    {
      OfTypeWithoutEntity(ix.all, t, e, sub);
    }
    forall e' | e' in ix'.byEntity
      ensures ix'.byEntity[e'] == ComponentsOf(ix'.all, e')
    {
      ComponentsOfWithoutEntity(ix.all, e, e');
    }
    WithoutEntityMembers(ix.all, e);
  }

  lemma DeleteKeepsCoherentIf(ix: Indexes, e: Entity, sub: Subtyping)
    ensures Coherent(ix, sub) ==> Coherent(AfterDelete(ix, e), sub)
  {
    if Coherent(ix, sub) {
      DeleteKeepsCoherent(ix, e, sub);
    }
  }

  /** The list of the removed type, pruned of the entity, is what
      `ShouldRemove` leaves of that type. */
  lemma {:induction false} OfTypeWithoutMatchingSame(pairs: seq<EntityWithAnything>, t: TypeTag, e: Entity, sub: Subtyping)
    ensures OfType(WithoutMatching(pairs, t, e, sub), t, sub) == WithoutEntity(OfType(pairs, t, sub), e)
  {
    if pairs != [] {
      OfTypeWithoutMatchingSame(Init(pairs), t, e, sub);
      var p := Last(pairs);
      var w := WithoutMatching(Init(pairs), t, e, sub);
      var o := OfType(Init(pairs), t, sub);
      if !ShouldRemove(p, t, e, sub) {
        assert Init(w + [p]) == w;
      }
      if sub(p.Component.Type, t) {
        assert Init(o + [p]) == o;
      }
    }
  }

  /** Any other list, pruned by `ShouldRemove`, is what `ShouldRemove`
      leaves of its type. */
  lemma {:induction false} OfTypeWithoutMatching(pairs: seq<EntityWithAnything>, u: TypeTag, t: TypeTag, e: Entity, sub: Subtyping)
    ensures OfType(WithoutMatching(pairs, t, e, sub), u, sub) == WithoutMatching(OfType(pairs, u, sub), t, e, sub)
  {
    if pairs != [] {
      OfTypeWithoutMatching(Init(pairs), u, t, e, sub);
      var p := Last(pairs);
      var w := WithoutMatching(Init(pairs), t, e, sub);
      var o := OfType(Init(pairs), u, sub);
      if !ShouldRemove(p, t, e, sub) {
        assert Init(w + [p]) == w;
      }
      if sub(p.Component.Type, u) {
        assert Init(o + [p]) == o;
      }
    }
  }

  /** `ShouldRemove` takes from the entity's components exactly the
      instances of the type, and nothing from other entities. */
  lemma {:induction false} ComponentsOfWithoutMatching(pairs: seq<EntityWithAnything>, t: TypeTag, e: Entity, e': Entity, sub: Subtyping)
    ensures ComponentsOf(WithoutMatching(pairs, t, e, sub), e') ==
      if e' == e then KeepUnlessInstance(ComponentsOf(pairs, e), t, sub) else ComponentsOf(pairs, e')
  {
    if pairs != [] {
      ComponentsOfWithoutMatching(Init(pairs), t, e, e', sub);
      var p := Last(pairs);
      var w := WithoutMatching(Init(pairs), t, e, sub);
      var k := ComponentsOf(Init(pairs), e);
      if !ShouldRemove(p, t, e, sub) {
        assert Init(w + [p]) == w;
      }
      if p.Entity == e {
        assert Init(k + [p.Component]) == k;
      }
    }
  }

  /** What `ShouldRemove` spares is what was there, minus its picks. */
  lemma {:induction false} WithoutMatchingMembers(pairs: seq<EntityWithAnything>, t: TypeTag, e: Entity, sub: Subtyping)
    ensures forall p :: p in WithoutMatching(pairs, t, e, sub) <==> p in pairs && !ShouldRemove(p, t, e, sub)
  {
    if pairs != [] {
      WithoutMatchingMembers(Init(pairs), t, e, sub);
      assert pairs == Init(pairs) + [Last(pairs)];
    }
  }

  /** Filtering keeps a subset of the types. */
  lemma {:induction false} KeepTypesSubset(cs: seq<Component>, t: TypeTag, sub: Subtyping)
    ensures TypesOf(KeepUnlessInstance(cs, t, sub)) <= TypesOf(cs)
    ensures DistinctTypes(cs) ==> DistinctTypes(KeepUnlessInstance(cs, t, sub))
  {
    if cs != [] {
      KeepTypesSubset(Init(cs), t, sub);
      var k := KeepUnlessInstance(Init(cs), t, sub);
      if !sub(Last(cs).Type, t) {
        assert Init(k + [Last(cs)]) == k;
      }
    }
  }

  /** When the only instances of `t` among the components have exact type
      `t`, filtering them out removes exactly the key `t` from the
      exact-type dictionary. */
  lemma {:induction false} KeepTypeMap(cs: seq<Component>, t: TypeTag, sub: Subtyping)
    requires sub(t, t)
    requires forall c :: c in cs && sub(c.Type, t) ==> c.Type == t
    ensures TypeMap(KeepUnlessInstance(cs, t, sub)) == TypeMap(cs) - {t}
  {
    if cs != [] {
      var rest, c := Init(cs), Last(cs);
      assert forall x :: x in rest ==> x in cs;
      KeepTypeMap(rest, t, sub);
      var k := KeepUnlessInstance(rest, t, sub);
      if sub(c.Type, t) {
        assert c.Type == t;
        RemoveUpdated(TypeMap(rest), t, c);
      } else {
        assert Init(k + [c]) == k && Last(k + [c]) == c;
        UpdateRemoved(TypeMap(rest), t, c.Type, c);
      }
    }
  }

  lemma RemoveUpdated<K, V>(m: map<K, V>, k: K, v: V)
    ensures m[k := v] - {k} == m - {k}
  {
  }

  lemma UpdateRemoved<K, V>(m: map<K, V>, t: K, k: K, v: V)
    requires k != t
    ensures (m - {t})[k := v] == m[k := v] - {t}
  {
  }

  /** The pruned per-type lists stay the lists of what is left. */
  lemma RemoveKeepsTypeLists(ix: Indexes, t: TypeTag, e: Entity, sub: Subtyping)
    requires TypeListsCoherent(ix, sub)
    ensures TypeListsCoherent(AfterRemove(ix, t, e, sub), sub)
  {
    var ix' := AfterRemove(ix, t, e, sub);
    forall u | u in ix'.byType
      ensures ix'.byType[u] == OfType(ix'.all, u, sub)
    {
      if u == t {
        OfTypeWithoutMatchingSame(ix.all, t, e, sub);
      } else {
        OfTypeWithoutMatching(ix.all, u, t, e, sub);
      }
    }
  }

  /** The filtered entity list stays the list of what is left of the
      entity, and is dropped exactly when nothing is left. */
  lemma RemoveKeepsEntityLists(ix: Indexes, t: TypeTag, e: Entity, sub: Subtyping)
    requires EntityListsCoherent(ix)
    ensures EntityListsCoherent(AfterRemove(ix, t, e, sub))
  {
    var ix' := AfterRemove(ix, t, e, sub);
    forall e' | e' in ix'.byEntity
      ensures ix'.byEntity[e'] == ComponentsOf(ix'.all, e')
    {
      ComponentsOfWithoutMatching(ix.all, t, e, e', sub);
    }
    forall p | p in ix'.all
      ensures p.Entity in ix'.byEntity
    {
      WithoutMatchingMembers(ix.all, t, e, sub);
      if p.Entity == e {
        ComponentsOfMembers(ix'.all, e);
        ComponentsOfWithoutMatching(ix.all, t, e, e, sub);
        assert p.Component in ComponentsOf(ix'.all, e);
      }
    }
  }

  /** With no strict subtype of `t` on the entity, the exact-type
      dictionary loses exactly the key `t`, and is dropped exactly when the
      entity list is. */
  lemma RemoveKeepsExactMaps(ix: Indexes, t: TypeTag, e: Entity, sub: Subtyping)
    requires EntityListsCoherent(ix) && ExactMapsCoherent(ix) && sub(t, t)
    requires NoStrictSubtypeOn(ix, t, e, sub)
    ensures ExactMapsCoherent(AfterRemove(ix, t, e, sub))
  {
    var ix' := AfterRemove(ix, t, e, sub);
    if e in ix.byEntity {
      var cs := ix.byEntity[e];
      var kept := KeepUnlessInstance(cs, t, sub);
      assert cs == ComponentsOf(ix.all, e);
      ComponentsOfMembers(ix.all, e);
      forall c | c in cs && sub(c.Type, t)
        ensures c.Type == t
      {
        assert EntityWithAnything(c, e) in ix.all;
      }
      KeepTypeMap(cs, t, sub);
      KeepTypesSubset(cs, t, sub);
      assert ix.byEntityByType[e] - {t} == TypeMap(kept);
      if kept == [] {
        assert ix'.byEntity == ix.byEntity - {e};
        assert ix'.byEntityByType == ix.byEntityByType - {e};
      } else {
        assert Last(kept).Type in TypeMap(kept);
        assert ix'.byEntity == ix.byEntity[e := kept];
        assert ix'.byEntityByType == ix.byEntityByType[e := TypeMap(kept)];
      }
    }
  }

  /** `RemoveComponentOfType` keeps the indexes coherent when the entity
      holds no component of a strict subtype of the removed type. */
  lemma RemoveKeepsCoherent(ix: Indexes, t: TypeTag, e: Entity, sub: Subtyping)
    requires Coherent(ix, sub) && sub(t, t)
    requires NoStrictSubtypeOn(ix, t, e, sub)
    ensures Coherent(AfterRemove(ix, t, e, sub), sub)
  {
    RemoveKeepsTypeLists(ix, t, e, sub);
    RemoveKeepsEntityLists(ix, t, e, sub);
    RemoveKeepsExactMaps(ix, t, e, sub);
  }

  /** With no attachment to remove, `RemoveWhere` leaves a list alone. */
  lemma {:induction false} WithoutMatchingNone(pairs: seq<EntityWithAnything>, t: TypeTag, e: Entity, sub: Subtyping)
    requires forall p :: p in pairs ==> !ShouldRemove(p, t, e, sub)
    ensures WithoutMatching(pairs, t, e, sub) == pairs
  {
    if pairs != [] {
      assert forall p :: p in Init(pairs) ==> p in pairs;
      WithoutMatchingNone(Init(pairs), t, e, sub);
      assert Last(pairs) in pairs;
      assert pairs == Init(pairs) + [Last(pairs)];
    }
  }

  /** When every component that is an instance or a supertype of `t` has
      exact type `t`, filtering by supertypes and by instances agree. */
  lemma {:induction false} KeepFiltersAgree(cs: seq<Component>, t: TypeTag, sub: Subtyping)
    requires sub(t, t)
    requires forall c :: c in cs && (sub(c.Type, t) || sub(t, c.Type)) ==> c.Type == t
    ensures KeepUnlessSupertype(cs, t, sub) == KeepUnlessInstance(cs, t, sub)
  {
    if cs != [] {
      assert forall c :: c in Init(cs) ==> c in cs;
      KeepFiltersAgree(Init(cs), t, sub);
      assert Last(cs) in cs;
    }
  }

  /** Where `RemovalAgrees`, the code as written does what the corrected
      removal does, and reports the same outcome. */
  lemma RemoveAsWrittenAgrees(ix: Indexes, t: TypeTag, e: Entity, sub: Subtyping)
    requires EntityListsCoherent(ix) && sub(t, t) && RemovalAgrees(ix, t, e, sub)
    ensures AfterRemoveAsWritten(ix, t, e, sub) == AfterRemove(ix, t, e, sub)
    ensures RemoveSucceedsAsWritten(ix, t, e, sub) <==> RemoveSucceeds(ix, t, e, sub)
  {
    forall u | u in ix.byType && u != t
      ensures WithoutMatching(ix.byType[u], t, e, sub) == ix.byType[u]
    {
      WithoutMatchingNone(ix.byType[u], t, e, sub);
    }
    assert PruneTypeListAsWritten(ix.byType, t, e) == PruneTypeLists(ix.byType, t, e, sub);
    if e in ix.byEntity {
      var cs := ix.byEntity[e];
      ComponentsOfMembers(ix.all, e);
      forall c | c in cs && (sub(c.Type, t) || sub(t, c.Type))
        ensures c.Type == t
      {
        assert EntityWithAnything(c, e) in ix.all;
      }
      KeepFiltersAgree(cs, t, sub);
    }
  }

  /** `RemoveComponentOfType` as written keeps the indexes coherent where it
      agrees with the corrected removal. */
  lemma RemoveAsWrittenKeepsCoherent(ix: Indexes, t: TypeTag, e: Entity, sub: Subtyping)
    requires Coherent(ix, sub) && sub(t, t) && RemovalAgrees(ix, t, e, sub)
    ensures Coherent(AfterRemoveAsWritten(ix, t, e, sub), sub)
  {
    RemoveAsWrittenAgrees(ix, t, e, sub);
    RemoveKeepsCoherent(ix, t, e, sub);
  }

  lemma RemoveAsWrittenKeepsCoherentIf(ix: Indexes, t: TypeTag, e: Entity, sub: Subtyping)
    ensures Coherent(ix, sub) && Reflexive(sub) && RemovalAgrees(ix, t, e, sub) ==>
      Coherent(AfterRemoveAsWritten(ix, t, e, sub), sub) &&
      AfterRemoveAsWritten(ix, t, e, sub) == AfterRemove(ix, t, e, sub)
  {
    if Coherent(ix, sub) && Reflexive(sub) && RemovalAgrees(ix, t, e, sub) {
      RemoveAsWrittenAgrees(ix, t, e, sub);
      RemoveAsWrittenKeepsCoherent(ix, t, e, sub);
    }
  }

  // ------------------------------------------------------- the two findings

  /** Two types, `Derived` (1) assignable to `Base` (0). */
  predicate DerivedIsBase(a: TypeTag, b: TypeTag)
  {
    a == b || (a == 1 && b == 0)
  }

  /** As written, removing the `Derived` component of an entity that also
      holds a `Base` component empties the entity's list, although the
      `Base` component stays attached. */
  lemma SupertypeFilterLosesBase()
    ensures
      var b, d := Component(5, 0), Component(7, 1);
      var all := [EntityWithAnything(b, 1), EntityWithAnything(d, 1)];
      && KeepUnlessSupertype(ComponentsOf(all, 1), 1, DerivedIsBase) == []
      && ComponentsOf(WithoutMatching(all, 1, 1, DerivedIsBase), 1) == [b]
  {
    var b, d := Component(5, 0), Component(7, 1);
    var pb, pd := EntityWithAnything(b, 1), EntityWithAnything(d, 1);
    var all := [pb, pd];
    assert Init(all) == [pb] && Last(all) == pd;
    assert Init([pb]) == [];
    assert ComponentsOf([pb], 1) == [b];
    assert ComponentsOf(all, 1) == [b, d];
    assert Init([b, d]) == [b] && Init([b]) == [];
    assert KeepUnlessSupertype([b], 1, DerivedIsBase) == [];
    assert WithoutMatching([pb], 1, 1, DerivedIsBase) == [pb];
    assert WithoutMatching(all, 1, 1, DerivedIsBase) == [pb];
  }

  /** One entity holding one `Derived` component (type 1, a subtype of
      `Base`, type 0), with coherent indexes. */
  function SingleDerived(): (ix: Indexes)
    ensures |ix.all| == 1 && ix.all[0].Component.Type == 1
  {
    var d := Component(7, 1);
    var p := EntityWithAnything(d, 1);
    Indexes([p], map[0 := [p], 1 := [p]], map[1 := [d]], map[1 := map[1 := d]])
  }

  lemma SingleDerivedTypeLists()
    ensures TypeListsCoherent(SingleDerived(), DerivedIsBase)
  {
    var ix := SingleDerived();
    var p := ix.all[0];
    assert Init([p]) == [] && Last([p]) == p;
    forall u | u in ix.byType
      ensures ix.byType[u] == OfType(ix.all, u, DerivedIsBase)
    {
      assert u == 0 || u == 1;
      assert DerivedIsBase(1, u);
    }
  }

  lemma SingleDerivedEntityLists()
    ensures EntityListsCoherent(SingleDerived())
  {
    var p := SingleDerived().all[0];
    assert Init([p]) == [] && Last([p]) == p;
    assert ComponentsOf([p], 1) == [p.Component];
  }

  lemma SingleDerivedExactMaps()
    ensures ExactMapsCoherent(SingleDerived())
  {
    var d := SingleDerived().all[0].Component;
    assert Init([d]) == [] && Last([d]) == d;
    assert TypeMap([d]) == map[1 := d];
    assert DistinctTypes([d]);
  }

  /** As written, the per-type list of `Base` keeps the detached `Derived`
      component, so the indexes are no longer coherent. */
  lemma UnprunedBaseListKeepsDerived()
    ensures
      var before := SingleDerived();
      var p := before.all[0];
      && Coherent(before, DerivedIsBase)
      && NoStrictSubtypeOn(before, 1, 1, DerivedIsBase)
      && WithoutMatching(before.all, 1, 1, DerivedIsBase) == []
      && p in PruneTypeListAsWritten(before.byType, 1, 1)[0]
      && PruneTypeLists(before.byType, 1, 1, DerivedIsBase)[0] == []
  {
    var before := SingleDerived();
    var p := before.all[0];
    SingleDerivedTypeLists();
    SingleDerivedEntityLists();
    SingleDerivedExactMaps();
    assert Init([p]) == [] && Last([p]) == p;
    assert WithoutMatching([p], 1, 1, DerivedIsBase) == [];
  }
}
