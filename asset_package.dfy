/** The object cache of an opened `AssetPackage`
    (Walgelijk.AssetManager/AssetPackage.cs): `GetAssetMetadata`,
    `GetAsset`, `Load<T>`, `LoadNoCache<T>`, `DisposeOf`, `IsCached`,
    `TryGetCached` and `Dispose`.

    A runtime type is a `TypeTag` and `is T` is the `InstanceOf` relation
    the package is given. A deserialiser is given as a function from the
    asset and the requested type to a `Script`: the assets it loads from the
    same package while it runs, in order, and what it makes of the loaded
    objects. A nested load goes through `Load<T>` again, which is what the
    `isDeserialising` flag guards. The package runs on one thread, so the
    reader-writer lock only matters once it is disposed: every later
    attempt to take it throws `ObjectDisposedException`. */
module AssetPackages {
  import opened Common
  import opened AssetTree
  import opened AssetIndex

  /** The runtime types of the two disposal interfaces. */
  const IDisposable: TypeTag := 0
  const IAsyncDisposable: TypeTag := 1

  /** An object a deserialiser made: its runtime type and its identity. */
  datatype Obj = Obj(Type: TypeTag, Handle: nat)

  /** What `GetAsset` hands a deserialiser: the asset's metadata record and
      the lines of its archive entry. */
  datatype Asset = Asset(Metadata: seq<string>, Entry: seq<string>)

  /** How a deserialiser ends: with an object, with null, or by throwing. */
  datatype Outcome = Produced(value: Obj) | ProducedNull | Threw(message: string)

  /** One run of a deserialiser: the (asset, type) pairs it loads through
      the package, in order, and its outcome given the loaded objects. An
      exception from a nested load is not caught by the deserialiser. */
  datatype Script = Script(Dependencies: seq<(AssetId, TypeTag)>, Finish: seq<Obj> -> Outcome)

  /** What a package is opened with and never changes. */
  datatype Env = Env(
    Archive: Archive,
    Index: Index,
    InstanceOf: (TypeTag, TypeTag) -> bool,
    Deserialise: (Asset, TypeTag) -> Script)

  /** What the package's methods change: `cache`, `metadataCache`,
      `isDeserialising`, `disposed` (which also stands for the disposed
      lock), and the objects whose `Dispose` the package has called. */
  datatype PackageState = PackageState(
    Cache: map<AssetId, Obj>,
    MetadataCache: map<AssetId, seq<string>>,
    IsDeserialising: bool,
    Disposed: bool,
    Released: set<Obj>)

  /** The state of a newly opened package. */
  const Fresh: PackageState := PackageState(map[], map[], false, false, {})

  function AssetKey(path: string): string { "assets/" + path }

  function MetadataKey(path: string): string { "metadata/" + path + ".json" }

  /** Neither the flags nor the released objects change, and no entry of
      either cache is removed or replaced. */
  predicate Keeps(st: PackageState, st': PackageState)
  {
    && st'.IsDeserialising == st.IsDeserialising
    && st'.Disposed == st.Disposed
    && st'.Released == st.Released
    && (forall k :: k in st.Cache ==> k in st'.Cache && st'.Cache[k] == st.Cache[k])
    && (forall k :: k in st.MetadataCache ==> k in st'.MetadataCache && st'.MetadataCache[k] == st.MetadataCache[k])
  }

  /** Anything but the exception of a failed `cache.TryAdd`. */
  predicate NotInsertFailure<T>(r: Result<T, PackageError>)
  {
    r.Failure? ==> !r.error.CacheInsertFailed?
  }

  // ------------------------------------------------------------ metadata

  /** `GetAssetMetadata`: the memoised record, or the metadata entry of the
      asset's path, which is then memoised. */
  function MetadataOf(env: Env, st: PackageState, id: AssetId): (r: (Result<seq<string>, PackageError>, PackageState))
    ensures Keeps(st, r.1) && r.1.Cache == st.Cache
    ensures r.0.Success? <==>
      id in st.MetadataCache ||
      (HasAsset(env.Index, id) && MetadataKey(env.Index.GuidTable[id.Internal]) in env.Archive)
    ensures r.0.Success? ==> id in r.1.MetadataCache && r.1.MetadataCache[id] == r.0.value
    ensures r.0.Success? && id !in st.MetadataCache ==>
      r.0.value == env.Archive[MetadataKey(env.Index.GuidTable[id.Internal])]
    ensures r.0.Failure? || id in st.MetadataCache ==> r.1 == st
  {
    if id in st.MetadataCache then (Success(st.MetadataCache[id]), st)
    else match GetAssetPath(env.Index, id)
      case Failure(e) => (Failure(e), st)
      case Success(path) =>
        if MetadataKey(path) !in env.Archive then (Failure(MissingMetadata(id, path)), st)
        else
          var value := env.Archive[MetadataKey(path)];
          (Success(value), st.(MetadataCache := st.MetadataCache[id := value]))
  }

  /** `GetAsset`: the None id and an id without an `assets/` entry fail;
      otherwise the asset with its (memoised) metadata. */
  function AssetOf(env: Env, st: PackageState, id: AssetId): (r: (Result<Asset, PackageError>, PackageState))
    ensures Keeps(st, r.1) && r.1.Cache == st.Cache
    ensures r.0.Success? <==>
      && id != NoneId && HasAsset(env.Index, id)
      && AssetKey(env.Index.GuidTable[id.Internal]) in env.Archive
      && MetadataOf(env, st, id).0.Success?
    ensures r.0.Success? ==>
      && id in r.1.MetadataCache
      && r.0.value == Asset(r.1.MetadataCache[id], env.Archive[AssetKey(env.Index.GuidTable[id.Internal])])
    ensures r.0 == Failure(IdIsNone) <==> id == NoneId
  {
    if id == NoneId then (Failure(IdIsNone), st)
    else match GetAssetPath(env.Index, id)
      case Failure(e) => (Failure(e), st)
      case Success(path) =>
        if AssetKey(path) !in env.Archive then (Failure(MissingAssetEntry(id, path)), st)
        else
          var (m, st1) := MetadataOf(env, st, id);
          match m
          case Failure(e) => (Failure(e), st1)
          case Success(metadata) => (Success(Asset(metadata, env.Archive[AssetKey(path)])), st1)
  }

  // ---------------------------------------------------------------- load

  /** `Load<T>` gets past its first checks: the id is not None, the
      package is not disposed and the asset's metadata reads. */
  predicate PastChecks(env: Env, st: PackageState, id: AssetId)
  {
    id != NoneId && !st.Disposed && MetadataOf(env, st, id).0.Success?
  }

  /** The steps of `Load<T>` before it deserialises: `Some` of the result
      when one of them decides the call, `None` when the asset has to be
      deserialised. */
  function Decided(env: Env, st: PackageState, id: AssetId, t: TypeTag): (r: (Option<Result<Obj, PackageError>>, PackageState))
    ensures Keeps(st, r.1) && r.1.Cache == st.Cache
    ensures r.0.None? <==>
      id != NoneId && !st.Disposed && MetadataOf(env, st, id).0.Success? && id !in st.Cache && !st.IsDeserialising
    ensures r.0.None? ==> id in r.1.MetadataCache
    ensures r.0.Some? && r.0.value.Success? ==>
      && id in st.Cache && r.0.value.value == st.Cache[id] && env.InstanceOf(st.Cache[id].Type, t)
      && !st.Disposed && id in r.1.MetadataCache
    ensures r.0.Some? ==> NotInsertFailure(r.0.value)
    ensures id == NoneId ==> r.0 == Some(Failure(IdIsNone))
    ensures PastChecks(env, st, id) && id in st.Cache ==>
      r.0 == Some(if env.InstanceOf(st.Cache[id].Type, t) then Success(st.Cache[id])
                  else Failure(TypeMismatch(id, st.Cache[id].Type, t)))
    ensures PastChecks(env, st, id) && id !in st.Cache && st.IsDeserialising ==>
      r.0 == Some(Failure(Reentrancy(id)))
  {
    if id == NoneId then (Some(Failure(IdIsNone)), st)
    else if st.Disposed then (Some(Failure(ObjectDisposed)), st)
    else
      var (m, st1) := MetadataOf(env, st, id);
      if m.Failure? then (Some(Failure(m.error)), st1)
      else if id in st1.Cache then
        var o := st1.Cache[id];
        if env.InstanceOf(o.Type, t) then (Some(Success(o)), st1)
        else (Some(Failure(TypeMismatch(id, o.Type, t))), st1)
      else if st1.IsDeserialising then (Some(Failure(Reentrancy(id))), st1)
      else (None, st1)
  }

  /** `Load<T>`. Deserialising sets `isDeserialising` for the run of the
      deserialiser and clears it again however the run ends. A successful
      load leaves the object cached under the id; nothing else enters the
      cache, and nothing in it is removed or replaced. */
  function Loaded(env: Env, st: PackageState, id: AssetId, t: TypeTag): (r: (Result<Obj, PackageError>, PackageState))
    ensures Keeps(st, r.1)
    ensures r.1.Cache.Keys <= st.Cache.Keys + {id}
    ensures st.IsDeserialising ==> r.1.Cache == st.Cache
    ensures r.0.Success? ==> !st.Disposed && id in r.1.MetadataCache && id in r.1.Cache && r.1.Cache[id] == r.0.value
    ensures NotInsertFailure(r.0)
    ensures id == NoneId ==> r.0 == Failure(IdIsNone) && r.1 == st
    ensures PastChecks(env, st, id) && id in st.Cache && env.InstanceOf(st.Cache[id].Type, t) ==>
      r.0 == Success(st.Cache[id])
    decreases if st.IsDeserialising then 0 else 1, 0, 0
  {
    var (decided, st1) := Decided(env, st, id, t);
    if decided.Some? then (decided.value, st1)
    else
      var (r, st2) := Deserialised(env, st1.(IsDeserialising := true), id, t);
      (r, st2.(IsDeserialising := false))
  }

  /** The part of `Load<T>` that runs with `isDeserialising` set:
      `GetAsset`, the deserialiser, the null check and `cache.TryAdd`. */
  function Deserialised(env: Env, st: PackageState, id: AssetId, t: TypeTag): (r: (Result<Obj, PackageError>, PackageState))
    requires st.IsDeserialising
    ensures Keeps(st, r.1)
    ensures r.1.Cache.Keys <= st.Cache.Keys + {id}
    ensures r.0.Success? ==> id in r.1.MetadataCache && id in r.1.Cache && r.1.Cache[id] == r.0.value
    ensures id !in st.Cache ==> NotInsertFailure(r.0)
    decreases 0, 3, 0
  {
    var (asset, st1) := AssetOf(env, st, id);
    if asset.Failure? then (Failure(asset.error), st1)
    else
      var (r, st2) := DeserialiserRun(env, st1, asset.value, id, t);
      if r.Failure? then (r, st2)
      else if id in st2.Cache then (Failure(CacheInsertFailed(id)), st2)
      else (r, st2.(Cache := st2.Cache[id := r.value]))
  }

  /** `AssetDeserialisers.Load<T>(asset) ?? throw`: the deserialiser's
      nested loads, then its outcome; null is an error. */
  function DeserialiserRun(env: Env, st: PackageState, asset: Asset, id: AssetId, t: TypeTag): (r: (Result<Obj, PackageError>, PackageState))
    ensures Keeps(st, r.1)
    ensures st.IsDeserialising ==> r.1.Cache == st.Cache
    ensures NotInsertFailure(r.0)
    decreases if st.IsDeserialising then 0 else 1, 2, 0
  {
    var script := env.Deserialise(asset, t);
    var (objs, st1) := DependenciesLoaded(env, st, script.Dependencies);
    if objs.Failure? then (Failure(objs.error), st1)
    else match script.Finish(objs.value)
      case Threw(message) => (Failure(DeserialiserFailed(message)), st1)
      case ProducedNull => (Failure(NullResult(id)), st1)
      case Produced(o) => (Success(o), st1)
  }

  /** The nested loads of a deserialiser, in order, up to the first that
      fails. */
  function DependenciesLoaded(env: Env, st: PackageState, deps: seq<(AssetId, TypeTag)>): (r: (Result<seq<Obj>, PackageError>, PackageState))
    ensures Keeps(st, r.1)
    ensures st.IsDeserialising ==> r.1.Cache == st.Cache
    ensures r.0.Success? ==> |r.0.value| == |deps|
    ensures NotInsertFailure(r.0)
    decreases if st.IsDeserialising then 0 else 1, 1, |deps|
  {
    if deps == [] then (Success([]), st)
    else
      var (objs, st1) := DependenciesLoaded(env, st, Init(deps));
      if objs.Failure? then (objs, st1)
      else
        var (o, st2) := Loaded(env, st1, Last(deps).0, Last(deps).1);
        if o.Failure? then (Failure(o.error), st2)
        else (Success(objs.value + [o.value]), st2)
  }

  /** `LoadNoCache<T>`: `Load<T>` without the cache. The asset itself is
      neither looked up in the cache nor inserted; the deserialiser's own
      nested loads are ordinary loads. */
  function LoadedNoCache(env: Env, st: PackageState, id: AssetId, t: TypeTag): (r: (Result<Obj, PackageError>, PackageState))
    ensures Keeps(st, r.1)
    ensures r.0.Success? ==> !st.Disposed && id != NoneId
    ensures NotInsertFailure(r.0)
  {
    if id == NoneId then (Failure(IdIsNone), st)
    else if st.Disposed then (Failure(ObjectDisposed), st)
    else
      var (asset, st1) := AssetOf(env, st, id);
      if asset.Failure? then (Failure(asset.error), st1)
      else DeserialiserRun(env, st1, asset.value, id, t)
  }

  // ------------------------------------------------------------- disposal

  /** Whether `Dispose` disposes the object in one of its two ways. */
  predicate Releasable(env: Env, o: Obj)
  {
    env.InstanceOf(o.Type, IDisposable) || env.InstanceOf(o.Type, IAsyncDisposable)
  }

  /** The objects of a cache that `Dispose` disposes. */
  function ReleasableValues(env: Env, cache: map<AssetId, Obj>): (s: set<Obj>)
    ensures forall k :: k in cache && Releasable(env, cache[k]) ==> cache[k] in s
    ensures forall o :: o in s ==> Releasable(env, o)
  {
    set k | k in cache && Releasable(env, cache[k]) :: cache[k]
  }

  /** `DisposeOf`: the id leaves the cache and its object is disposed when
      it is `IDisposable`; nothing happens for an id not cached. */
  function AfterDisposeOf(env: Env, st: PackageState, id: AssetId): (r: (Result<(), PackageError>, PackageState))
    ensures r.0.Success? <==> !st.Disposed
    ensures r.0.Success? ==> r.1.Cache == st.Cache - {id} && r.1.MetadataCache == st.MetadataCache
    ensures r.0.Success? ==> r.1.Released - st.Released <= (if id in st.Cache then {st.Cache[id]} else {})
    ensures r.0.Failure? || id !in st.Cache ==> r.1 == st
  {
    if st.Disposed then (Failure(ObjectDisposed), st)
    else if id !in st.Cache then (Success(()), st)
    else
      var o := st.Cache[id];
      var released := if env.InstanceOf(o.Type, IDisposable) then st.Released + {o} else st.Released;
      (Success(()), st.(Cache := st.Cache - {id}, Released := released))
  }

  /** `Dispose`, with an object that is only `IAsyncDisposable` disposed
      synchronously: the first call disposes every disposable cached object
      and empties the cache; later calls do nothing. `metadataCache` is left
      as it is. */
  function AfterDispose(env: Env, st: PackageState): (r: PackageState)
    ensures r.Disposed && r.MetadataCache == st.MetadataCache
    ensures st.Disposed ==> r == st
    ensures !st.Disposed ==> r.Cache == map[] && r.Released == st.Released + ReleasableValues(env, st.Cache)
  {
    if st.Disposed then st
    else st.(Cache := map[], Disposed := true, Released := st.Released + ReleasableValues(env, st.Cache))
  }

  /** The loop of `Dispose` as written, over the cache's ids in the
      dictionary's enumeration `order`: an `IDisposable` object is disposed;
      for an object that is only `IAsyncDisposable`, `Task.Run` queues its
      `DisposeAsync` and `RunSynchronously` then throws, because `Task.Run`
      has already started that `Task`. The second component is what was
      disposed up to that point, the object whose `DisposeAsync` was queued
      included. */
  function ReleaseAsWritten(env: Env, cache: map<AssetId, Obj>, order: seq<AssetId>): (r: (Result<(), PackageError>, set<Obj>))
    requires forall i :: 0 <= i < |order| ==> order[i] in cache
    ensures r.0.Failure? ==> r.0.error == TaskAlreadyStarted
    decreases |order|
  {
    if order == [] then (Success(()), {})
    else
      var (outcome, released) := ReleaseAsWritten(env, cache, Init(order));
      var o := cache[Last(order)];
      if outcome.Failure? then (outcome, released)
      else if env.InstanceOf(o.Type, IDisposable) then (Success(()), released + {o})
      else if env.InstanceOf(o.Type, IAsyncDisposable) then (Failure(TaskAlreadyStarted), released + {o})
      else (Success(()), released)
  }

  /** `Dispose` as written: when the loop throws, the cache is not cleared
      and the package is not marked disposed. */
  function AfterDisposeAsWritten(env: Env, st: PackageState, order: seq<AssetId>): (r: (Result<(), PackageError>, PackageState))
    requires forall i :: 0 <= i < |order| ==> order[i] in st.Cache
    ensures r.0.Success? ==> r.1.Disposed && (!st.Disposed ==> r.1.Cache == map[])
    ensures r.0.Failure? ==> r.1.Cache == st.Cache && r.1.Disposed == st.Disposed
  {
    if st.Disposed then (Success(()), st)
    else
      var (outcome, released) := ReleaseAsWritten(env, st.Cache, order);
      if outcome.Failure? then (outcome, st.(Released := st.Released + released))
      else (Success(()), st.(Cache := map[], Disposed := true, Released := st.Released + released))
  }

  // ---------------------------------------------------------- the class

  class AssetPackage {
    const archive: Archive
    const index: Index
    const instanceOf: (TypeTag, TypeTag) -> bool
    const deserialise: (Asset, TypeTag) -> Script

    var cache: map<AssetId, Obj>
    var metadataCache: map<AssetId, seq<string>>
    var isDeserialising: bool
    var disposed: bool
    var released: set<Obj>

    function Environment(): Env
    {
      Env(archive, index, instanceOf, deserialise)
    }

    function State(): PackageState
      reads this
    {
      PackageState(cache, metadataCache, isDeserialising, disposed, released)
    }

    /** The fields the constructor fills from an index already read. */
    constructor(archive: Archive, index: Index, instanceOf: (TypeTag, TypeTag) -> bool, deserialise: (Asset, TypeTag) -> Script)
      ensures this.archive == archive && this.index == index
      ensures this.instanceOf == instanceOf && this.deserialise == deserialise
      ensures State() == Fresh
    {
      this.archive := archive;
      this.index := index;
      this.instanceOf := instanceOf;
      this.deserialise := deserialise;
      cache := map[];
      metadataCache := map[];
      isDeserialising := false;
      disposed := false;
      released := {};
    }

    /** The constructor as a whole: it throws exactly when reading the
        index fails, and otherwise yields a package with empty caches. */
    static method Open(archive: Archive, validPath: string -> bool, instanceOf: (TypeTag, TypeTag) -> bool, deserialise: (Asset, TypeTag) -> Script)
      returns (r: Result<AssetPackage, PackageError>)
      ensures r.Success? <==> ReadIndex(archive, validPath).Success?
      ensures r.Failure? ==> r.error == ReadIndex(archive, validPath).error
      ensures r.Success? ==>
        && fresh(r.value) && r.value.archive == archive
        && r.value.index == ReadIndex(archive, validPath).value && r.value.State() == Fresh
    {
      var ix := ReadIndexEntries(archive, validPath);
      if ix.Failure? {
        return Failure(ix.error);
      }
      var package := new AssetPackage(archive, ix.value, instanceOf, deserialise);
      return Success(package);
    }

    method GetAssetMetadata(id: AssetId) returns (r: Result<seq<string>, PackageError>)
      modifies this
      ensures (r, State()) == MetadataOf(Environment(), old(State()), id)
    {
      if id in metadataCache {
        return Success(metadataCache[id]);
      }
      var path := GetAssetPath(index, id);
      if path.Failure? {
        return Failure(path.error);
      }
      var p := MetadataKey(path.value);
      if p !in archive {
        return Failure(MissingMetadata(id, path.value));
      }
      var value := archive[p];
      metadataCache := metadataCache[id := value];
      return Success(value);
    }

    method GetAsset(id: AssetId) returns (r: Result<Asset, PackageError>)
      modifies this
      ensures (r, State()) == AssetOf(Environment(), old(State()), id)
    {
      if id == NoneId {
        return Failure(IdIsNone);
      }
      var path := GetAssetPath(index, id);
      if path.Failure? {
        return Failure(path.error);
      }
      var p := AssetKey(path.value);
      if p !in archive {
        return Failure(MissingAssetEntry(id, path.value));
      }
      var metadata := GetAssetMetadata(id);
      if metadata.Failure? {
        return Failure(metadata.error);
      }
      return Success(Asset(metadata.value, archive[p]));
    }

    method Load(id: AssetId, t: TypeTag) returns (r: Result<Obj, PackageError>)
      modifies this
      ensures (r, State()) == Loaded(Environment(), old(State()), id, t)
      decreases if isDeserialising then 0 else 1, 0, 0
    {
      if id == NoneId {
        return Failure(IdIsNone);
      }
      if disposed {
        return Failure(ObjectDisposed);
      }
      var metadata := GetAssetMetadata(id);
      if metadata.Failure? {
        return Failure(metadata.error);
      }
      if id in cache {
        var obj := cache[id];
        if instanceOf(obj.Type, t) {
          return Success(obj);
        }
        return Failure(TypeMismatch(id, obj.Type, t));
      }
      if isDeserialising {
        return Failure(Reentrancy(id));
      }
      isDeserialising := true;
      r := DeserialiseAndCache(id, t);
      isDeserialising := false;
    }

    method DeserialiseAndCache(id: AssetId, t: TypeTag) returns (r: Result<Obj, PackageError>)
      requires isDeserialising
      modifies this
      ensures (r, State()) == Deserialised(Environment(), old(State()), id, t)
      decreases 0, 3, 0
    {
      var asset := GetAsset(id);
      if asset.Failure? {
        return Failure(asset.error);
      }
      r := RunDeserialiser(asset.value, id, t);
      if r.Success? {
        if id in cache {
          r := Failure(CacheInsertFailed(id));
        } else {
          cache := cache[id := r.value];
        }
      }
    }

    method RunDeserialiser(asset: Asset, id: AssetId, t: TypeTag) returns (r: Result<Obj, PackageError>)
      modifies this
      ensures (r, State()) == DeserialiserRun(Environment(), old(State()), asset, id, t)
      decreases if isDeserialising then 0 else 1, 2, 0
    {
      var script := deserialise(asset, t);
      var objs := LoadDependencies(script.Dependencies);
      if objs.Failure? {
        return Failure(objs.error);
      }
      match script.Finish(objs.value)
      case Threw(message) => r := Failure(DeserialiserFailed(message));
      case ProducedNull => r := Failure(NullResult(id));
      case Produced(o) => r := Success(o);
    }

    /** The deserialiser's nested `Load<T>` calls, in order. */
    method LoadDependencies(deps: seq<(AssetId, TypeTag)>) returns (r: Result<seq<Obj>, PackageError>)
      modifies this
      ensures (r, State()) == DependenciesLoaded(Environment(), old(State()), deps)
      decreases if isDeserialising then 0 else 1, 1, |deps|
    {
      var objs := [];
      var i := 0;
      while i < |deps|
        invariant 0 <= i <= |deps|
        invariant isDeserialising == old(isDeserialising)
        invariant (Success(objs), State()) == DependenciesLoaded(Environment(), old(State()), deps[..i])
      {
        ghost var before := State();
        var o := Load(deps[i].0, deps[i].1);
        DependenciesStep(Environment(), old(State()), deps, i, objs, before, o, State());
        if o.Failure? {
          DependencyFailureSticks(Environment(), old(State()), deps, i + 1);
          return Failure(o.error);
        }
        objs := objs + [o.value];
        i := i + 1;
      }
      assert deps[..i] == deps;
      return Success(objs);
    }

    method LoadNoCache(id: AssetId, t: TypeTag) returns (r: Result<Obj, PackageError>)
      modifies this
      ensures (r, State()) == LoadedNoCache(Environment(), old(State()), id, t)
    {
      if id == NoneId {
        return Failure(IdIsNone);
      }
      if disposed {
        return Failure(ObjectDisposed);
      }
      var asset := GetAsset(id);
      if asset.Failure? {
        return Failure(asset.error);
      }
      r := RunDeserialiser(asset.value, id, t);
    }

    method DisposeOf(id: AssetId) returns (r: Result<(), PackageError>)
      modifies this
      ensures (r, State()) == AfterDisposeOf(Environment(), old(State()), id)
    {
      if disposed {
        return Failure(ObjectDisposed);
      }
      if id in cache {
        var obj := cache[id];
        cache := cache - {id};
        if instanceOf(obj.Type, IDisposable) {
          released := released + {obj};
        }
      }
      return Success(());
    }

    /** `IsCached`: the id has a cached object. */
    function IsCached(id: AssetId): (b: bool)
      reads this
      ensures b <==> id in State().Cache
    {
      id in cache
    }

    /** `TryGetCached`: the cached object, if any. */
    function TryGetCached(id: AssetId): (r: Option<Obj>)
      reads this
      ensures r.Some? <==> IsCached(id)
      ensures r.Some? ==> r.value == State().Cache[id]
    {
      if id in cache then Some(cache[id]) else None
    }

    method Dispose()
      modifies this
      ensures State() == AfterDispose(Environment(), old(State()))
    {
      if disposed {
        return;
      }
      var keys := cache.Keys;
      while keys != {}
        invariant keys <= cache.Keys && State() == old(State()).(Released := released)
        invariant released == old(released) + ReleasableValues(Environment(), cache - keys)
        decreases keys
      {
        var k :| k in keys;
        var v := cache[k];
        ReleasableStep(Environment(), cache, keys, k);
        if instanceOf(v.Type, IDisposable) || instanceOf(v.Type, IAsyncDisposable) {
          released := released + {v};
        }
        keys := keys - {k};
      }
      assert cache - keys == cache;
      cache := map[];
      disposed := true;
    }
  }

  // ---------------------------------------------------------------- lemmas

  /** Once a nested load fails, the later ones do not run. */
  lemma {:induction false} DependencyFailureSticks(env: Env, st: PackageState, deps: seq<(AssetId, TypeTag)>, k: nat)
    requires 0 < k <= |deps|
    requires DependenciesLoaded(env, st, deps[..k]).0.Failure?
    ensures DependenciesLoaded(env, st, deps) == DependenciesLoaded(env, st, deps[..k])
    decreases |deps|
  {
    if k < |deps| {
      assert Init(deps)[..k] == deps[..k];
      DependencyFailureSticks(env, st, Init(deps), k);
    } else {
      assert deps[..k] == deps;
    }
  }

  /** A successful run of nested loads is a successful run of all but the
      last, followed by a successful load of the last. */
  lemma DependenciesSplit(env: Env, st: PackageState, deps: seq<(AssetId, TypeTag)>, objs: seq<Obj>, st': PackageState)
    returns (before: seq<Obj>, mid: PackageState, o: Obj)
    requires deps != []
    requires DependenciesLoaded(env, st, deps) == (Success(objs), st')
    ensures DependenciesLoaded(env, st, Init(deps)) == (Success(before), mid)
    ensures Loaded(env, mid, Last(deps).0, Last(deps).1) == (Success(o), st')
    ensures objs == before + [o]
    ensures Keeps(mid, st') && Last(deps).0 in st'.Cache && st'.Cache[Last(deps).0] == o
  {
    var r := DependenciesLoaded(env, st, Init(deps));
    var l := Loaded(env, r.1, Last(deps).0, Last(deps).1);
    before, mid, o := r.0.value, r.1, l.0.value;
  }

  /** Every object handed to a deserialiser is cached under the id it was
      loaded by. */
  lemma {:induction false} DependenciesCached(env: Env, st: PackageState, deps: seq<(AssetId, TypeTag)>, objs: seq<Obj>, st': PackageState)
    requires DependenciesLoaded(env, st, deps) == (Success(objs), st')
    ensures forall i :: 0 <= i < |deps| ==> deps[i].0 in st'.Cache && st'.Cache[deps[i].0] == objs[i]
    decreases |deps|
  {
    if deps != [] {
      var before, mid, o := DependenciesSplit(env, st, deps, objs, st');
      DependenciesCached(env, st, Init(deps), before, mid);
      CachedAfterOneMore(Init(deps), Last(deps), before, o, mid, st');
      InitLast(deps);
    }
  }

  /** The induction step of `DependenciesCached`, away from the loads. */
  lemma CachedAfterOneMore(init: seq<(AssetId, TypeTag)>, last: (AssetId, TypeTag), before: seq<Obj>, o: Obj,
                           mid: PackageState, st': PackageState)
    requires |before| == |init|
    requires forall i :: 0 <= i < |init| ==> init[i].0 in mid.Cache && mid.Cache[init[i].0] == before[i]
    requires Keeps(mid, st')
    requires last.0 in st'.Cache && st'.Cache[last.0] == o
    ensures forall i :: 0 <= i < |init| + 1 ==>
      (init + [last])[i].0 in st'.Cache && st'.Cache[(init + [last])[i].0] == (before + [o])[i]
  {
    forall i | 0 <= i < |init| + 1
      ensures (init + [last])[i].0 in st'.Cache && st'.Cache[(init + [last])[i].0] == (before + [o])[i]
    {
      if i < |init| {
        assert (init + [last])[i] == init[i] && (before + [o])[i] == before[i];
      }
    }
  }

  /** One more nested load. */
  lemma DependenciesStep(env: Env, st: PackageState, deps: seq<(AssetId, TypeTag)>, i: nat, objs: seq<Obj>,
                         st1: PackageState, o: Result<Obj, PackageError>, st2: PackageState)
    requires i < |deps|
    requires DependenciesLoaded(env, st, deps[..i]) == (Success(objs), st1)
    requires Loaded(env, st1, deps[i].0, deps[i].1) == (o, st2)
    ensures DependenciesLoaded(env, st, deps[..i + 1]) ==
      (if o.Failure? then Failure(o.error) else Success(objs + [o.value]), st2)
  {
    assert Init(deps[..i + 1]) == deps[..i] && Last(deps[..i + 1]) == deps[i];
  }

  /** One more id of the loop in `Dispose`. */
  lemma ReleasableStep(env: Env, cache: map<AssetId, Obj>, keys: set<AssetId>, k: AssetId)
    requires k in keys && keys <= cache.Keys
    ensures ReleasableValues(env, cache - (keys - {k})) ==
      ReleasableValues(env, cache - keys) + (if Releasable(env, cache[k]) then {cache[k]} else {})
  {
    var before, after := cache - keys, cache - (keys - {k});
    var extra := if Releasable(env, cache[k]) then {cache[k]} else {};
    forall o
      ensures o in ReleasableValues(env, after) <==> o in ReleasableValues(env, before) + extra
    {
      if o in ReleasableValues(env, after) {
        var j :| j in after && Releasable(env, after[j]) && after[j] == o;
        if j != k {
          assert j in before;
        }
      }
      if o in ReleasableValues(env, before) {
        var j :| j in before && Releasable(env, before[j]) && before[j] == o;
        assert j in after;
      }
      if o in extra {
        assert k in after && after[k] == o;
      }
    }
  }

  /** `GetAssetMetadata` is memoised: once it has succeeded, calling it
      again returns the same record and changes nothing. */
  lemma MetadataMemoised(env: Env, st: PackageState, id: AssetId)
    requires MetadataOf(env, st, id).0.Success?
    ensures var (r, st') := MetadataOf(env, st, id); MetadataOf(env, st', id) == (r, st')
  {
  }

  /** After a successful `Load<T>` of an object that is a `T`, loading the
      id again returns the same object from the cache and changes nothing:
      the deserialiser does not run again. */
  lemma LoadAgain(env: Env, st: PackageState, id: AssetId, t: TypeTag)
    requires Loaded(env, st, id, t).0.Success?
    requires env.InstanceOf(Loaded(env, st, id, t).0.value.Type, t)
    ensures var (r, st') := Loaded(env, st, id, t); Loaded(env, st', id, t) == (r, st')
  {
    var (r, st') := Loaded(env, st, id, t);
    assert MetadataOf(env, st', id) == (Success(st'.MetadataCache[id]), st');
    assert Decided(env, st', id, t) == (Some(r), st');
  }

  /** A load while a deserialiser runs never deserialises: an id that is
      not cached yet fails with the reentrancy error, and the cache stays
      as it is. */
  lemma ReentrantLoad(env: Env, st: PackageState, id: AssetId, t: TypeTag)
    requires st.IsDeserialising && !st.Disposed && id != NoneId && id !in st.Cache
    requires MetadataOf(env, st, id).0.Success?
    ensures Loaded(env, st, id, t) == (Failure(Reentrancy(id)), MetadataOf(env, st, id).1)
  {
  }

  /** With a deserialiser that loads nothing through the package,
      `LoadNoCache` leaves the cache as it is, and its result does not
      depend on what is cached. */
  lemma LoadNoCacheIgnoresCache(env: Env, st: PackageState, id: AssetId, t: TypeTag, other: map<AssetId, Obj>)
    requires forall a :: env.Deserialise(a, t).Dependencies == []
    ensures LoadedNoCache(env, st, id, t).1.Cache == st.Cache
    ensures LoadedNoCache(env, st, id, t).0 == LoadedNoCache(env, st.(Cache := other), id, t).0
  {
    var st2 := st.(Cache := other);
    if id != NoneId && !st.Disposed {
      var (asset, st1) := AssetOf(env, st, id);
      var (asset2, st3) := AssetOf(env, st2, id);
      assert asset2 == asset && st3 == st1.(Cache := other);
      if asset.Success? {
        RunWithoutDependencies(env, st1, asset.value, id, t, other);
      }
    }
  }

  /** A deserialiser with no nested loads changes nothing and does not
      look at the cache. */
  lemma RunWithoutDependencies(env: Env, st: PackageState, asset: Asset, id: AssetId, t: TypeTag, other: map<AssetId, Obj>)
    requires env.Deserialise(asset, t).Dependencies == []
    ensures DeserialiserRun(env, st, asset, id, t).1 == st
    ensures DeserialiserRun(env, st, asset, id, t).0 == DeserialiserRun(env, st.(Cache := other), asset, id, t).0
  {
    assert DependenciesLoaded(env, st, []) == (Success([]), st);
    assert DependenciesLoaded(env, st.(Cache := other), []) == (Success([]), st.(Cache := other));
  }

  /** What a deserialiser run returns once its nested loads have handed it
      `objs`: the object it produced, `NullResult` for null (the
      `?? throw`), `DeserialiserFailed` for an exception; the state is the
      one the nested loads left. */
  lemma RunOutcome(env: Env, st: PackageState, a: Asset, id: AssetId, t: TypeTag, objs: seq<Obj>)
    requires DependenciesLoaded(env, st, env.Deserialise(a, t).Dependencies).0 == Success(objs)
    ensures DeserialiserRun(env, st, a, id, t).1 == DependenciesLoaded(env, st, env.Deserialise(a, t).Dependencies).1
    ensures env.Deserialise(a, t).Finish(objs).Produced? ==>
      DeserialiserRun(env, st, a, id, t).0 == Success(env.Deserialise(a, t).Finish(objs).value)
    ensures env.Deserialise(a, t).Finish(objs).ProducedNull? ==>
      DeserialiserRun(env, st, a, id, t).0 == Failure(NullResult(id))
    ensures env.Deserialise(a, t).Finish(objs).Threw? ==>
      DeserialiserRun(env, st, a, id, t).0 == Failure(DeserialiserFailed(env.Deserialise(a, t).Finish(objs).message))
  {
  }

  /** The state `Load<T>` deserialises in: past its checks, with
      `isDeserialising` set. */
  function LoadStart(env: Env, st: PackageState, id: AssetId, t: TypeTag): PackageState
  {
    Decided(env, st, id, t).1.(IsDeserialising := true)
  }

  /** A `Load<T>` that deserialises, once `GetAsset` has returned `a` and
      the nested loads have handed the deserialiser `objs`: a produced
      object is returned and cached under the id, a null result fails with
      `NullResult` and an exception with `DeserialiserFailed`, leaving the
      cache as it was. Either way `isDeserialising` is cleared again. */
  lemma LoadDeserialises(env: Env, st: PackageState, id: AssetId, t: TypeTag, a: Asset, objs: seq<Obj>)
    requires Decided(env, st, id, t).0.None?
    requires AssetOf(env, LoadStart(env, st, id, t), id).0 == Success(a)
    requires DependenciesLoaded(env, AssetOf(env, LoadStart(env, st, id, t), id).1, env.Deserialise(a, t).Dependencies).0 == Success(objs)
    ensures !Loaded(env, st, id, t).1.IsDeserialising
    ensures env.Deserialise(a, t).Finish(objs).Produced? ==>
      && Loaded(env, st, id, t).0 == Success(env.Deserialise(a, t).Finish(objs).value)
      && Loaded(env, st, id, t).1.Cache == st.Cache[id := env.Deserialise(a, t).Finish(objs).value]
    ensures env.Deserialise(a, t).Finish(objs).ProducedNull? ==>
      Loaded(env, st, id, t).0 == Failure(NullResult(id)) && Loaded(env, st, id, t).1.Cache == st.Cache
    ensures env.Deserialise(a, t).Finish(objs).Threw? ==>
      && Loaded(env, st, id, t).0 == Failure(DeserialiserFailed(env.Deserialise(a, t).Finish(objs).message))
      && Loaded(env, st, id, t).1.Cache == st.Cache
  {
    var st1 := LoadStart(env, st, id, t);
    var st2 := AssetOf(env, st1, id).1;
    RunOutcome(env, st2, a, id, t, objs);
    var (r, st3) := DeserialiserRun(env, st2, a, id, t);
    assert st3.Cache == st.Cache && id !in st.Cache;
    assert Deserialised(env, st1, id, t) ==
      (if r.Failure? then (r, st3) else (r, st3.(Cache := st3.Cache[id := r.value])));
  }

  /** `LoadNoCache<T>` once `GetAsset` has returned `a` and the nested loads
      have handed the deserialiser `objs`: the produced object is returned
      and not cached, a null result fails with `NullResult` and an
      exception with `DeserialiserFailed`; the state is the one the nested
      loads left. */
  lemma LoadNoCacheDeserialises(env: Env, st: PackageState, id: AssetId, t: TypeTag, a: Asset, objs: seq<Obj>)
    requires id != NoneId && !st.Disposed
    requires AssetOf(env, st, id).0 == Success(a)
    requires DependenciesLoaded(env, AssetOf(env, st, id).1, env.Deserialise(a, t).Dependencies).0 == Success(objs)
    ensures LoadedNoCache(env, st, id, t).1 == DependenciesLoaded(env, AssetOf(env, st, id).1, env.Deserialise(a, t).Dependencies).1
    ensures env.Deserialise(a, t).Finish(objs).Produced? ==>
      LoadedNoCache(env, st, id, t).0 == Success(env.Deserialise(a, t).Finish(objs).value)
    ensures env.Deserialise(a, t).Finish(objs).ProducedNull? ==>
      LoadedNoCache(env, st, id, t).0 == Failure(NullResult(id))
    ensures env.Deserialise(a, t).Finish(objs).Threw? ==>
      LoadedNoCache(env, st, id, t).0 == Failure(DeserialiserFailed(env.Deserialise(a, t).Finish(objs).message))
  {
    RunOutcome(env, AssetOf(env, st, id).1, a, id, t, objs);
  }

  /** A second `Dispose` changes nothing. */
  lemma DisposeTwice(env: Env, st: PackageState)
    ensures AfterDispose(env, AfterDispose(env, st)) == AfterDispose(env, st)
  {
  }

  // ------------------------------------------------- Dispose, as written

  /** An object that is `IAsyncDisposable` but not `IDisposable`. */
  predicate AsyncOnly(env: Env, o: Obj)
  {
    !env.InstanceOf(o.Type, IDisposable) && env.InstanceOf(o.Type, IAsyncDisposable)
  }

  /** The loop as written throws once it meets an object that is only
      `IAsyncDisposable`, wherever that object comes in the enumeration. */
  lemma {:induction false} ReleaseFailsAt(env: Env, cache: map<AssetId, Obj>, order: seq<AssetId>, i: nat)
    requires forall j :: 0 <= j < |order| ==> order[j] in cache
    requires i < |order| && AsyncOnly(env, cache[order[i]])
    ensures ReleaseAsWritten(env, cache, order).0 == Failure(TaskAlreadyStarted)
    decreases |order|
  {
    if i < |order| - 1 {
      ReleaseFailsAt(env, cache, Init(order), i);
    }
  }

  /** With an object that is only `IAsyncDisposable` in the cache,
      `Dispose` as written throws, and the package is left undisposed with
      its cache full; the corrected `Dispose` empties the cache. */
  lemma AsyncOnlyObjectAbortsDispose(env: Env, st: PackageState, order: seq<AssetId>, i: nat)
    requires !st.Disposed
    requires forall j :: 0 <= j < |order| ==> order[j] in st.Cache
    requires i < |order| && AsyncOnly(env, st.Cache[order[i]])
    ensures var (r, st') := AfterDisposeAsWritten(env, st, order);
      r == Failure(TaskAlreadyStarted) && !st'.Disposed && st'.Cache == st.Cache
    ensures AfterDispose(env, st).Disposed && AfterDispose(env, st).Cache == map[]
  {
    ReleaseFailsAt(env, st.Cache, order, i);
  }

  /** The objects the loop as written disposes along `order`, when none of
      them is only `IAsyncDisposable`. */
  ghost function ReleasedAlong(env: Env, cache: map<AssetId, Obj>, order: seq<AssetId>): set<Obj>
    requires forall j :: 0 <= j < |order| ==> order[j] in cache
  {
    set j | 0 <= j < |order| && Releasable(env, cache[order[j]]) :: cache[order[j]]
  }

  lemma {:induction false} ReleaseAlong(env: Env, cache: map<AssetId, Obj>, order: seq<AssetId>)
    requires forall j :: 0 <= j < |order| ==> order[j] in cache
    requires forall j :: 0 <= j < |order| ==> !AsyncOnly(env, cache[order[j]])
    ensures ReleaseAsWritten(env, cache, order) == (Success(()), ReleasedAlong(env, cache, order))
    decreases |order|
  {
    if order != [] {
      var init := Init(order);
      ReleaseAlong(env, cache, init);
      var o := cache[Last(order)];
      var extra := if Releasable(env, o) then {o} else {};
      forall x
        ensures x in ReleasedAlong(env, cache, order) <==> x in ReleasedAlong(env, cache, init) + extra
      {
        if x in ReleasedAlong(env, cache, order) {
          var j :| 0 <= j < |order| && Releasable(env, cache[order[j]]) && cache[order[j]] == x;
          if j < |init| {
            assert init[j] == order[j];
          }
        }
        if x in ReleasedAlong(env, cache, init) {
          var j :| 0 <= j < |init| && Releasable(env, cache[init[j]]) && cache[init[j]] == x;
          assert order[j] == init[j];
        }
        if x in extra {
          assert order[|order| - 1] == Last(order);
        }
      }
      assert ReleasedAlong(env, cache, order) == ReleasedAlong(env, cache, init) + extra;
      assert !AsyncOnly(env, o) by {
        assert o == cache[order[|order| - 1]];
      }
      var (outcome, released) := ReleaseAsWritten(env, cache, init);
      assert outcome.Success? && released == ReleasedAlong(env, cache, init);
      if env.InstanceOf(o.Type, IDisposable) {
        assert ReleaseAsWritten(env, cache, order) == (Success(()), released + {o});
      } else {
        assert ReleaseAsWritten(env, cache, order) == (Success(()), released);
        assert !Releasable(env, o) && extra == {};
        assert ReleasedAlong(env, cache, order) == released;
      }
    } else {
      assert ReleasedAlong(env, cache, order) == {};
    }
  }

  /** Where the loop as written stops: at the first object that is only
      `IAsyncDisposable`, after disposing the disposable objects before it
      and queueing that object's `DisposeAsync`. */
  lemma {:induction false} ReleaseStopsAt(env: Env, cache: map<AssetId, Obj>, order: seq<AssetId>, i: nat)
    requires forall j :: 0 <= j < |order| ==> order[j] in cache
    requires i < |order| && AsyncOnly(env, cache[order[i]])
    requires forall j :: 0 <= j < i ==> !AsyncOnly(env, cache[order[j]])
    ensures ReleaseAsWritten(env, cache, order) ==
      (Failure(TaskAlreadyStarted), ReleasedAlong(env, cache, order[..i]) + {cache[order[i]]})
    decreases |order|
  {
    var init := Init(order);
    if i < |order| - 1 {
      assert init[..i] == order[..i];
      assert init[i] == order[i];
      ReleaseStopsAt(env, cache, init, i);
    } else {
      assert init == order[..i];
      ReleaseAlong(env, cache, init);
      assert Last(order) == order[i];
    }
  }

  /** When the enumeration covers the cache and no cached object is only
      `IAsyncDisposable`, `Dispose` as written and the corrected `Dispose`
      agree. */
  lemma DisposeAgreesWithoutAsyncOnly(env: Env, st: PackageState, order: seq<AssetId>)
    requires forall j :: 0 <= j < |order| ==> order[j] in st.Cache
    requires forall k :: k in st.Cache ==> k in order
    requires forall k :: k in st.Cache ==> !AsyncOnly(env, st.Cache[k])
    ensures AfterDisposeAsWritten(env, st, order) == (Success(()), AfterDispose(env, st))
  {
    if !st.Disposed {
      ReleaseAlong(env, st.Cache, order);
      forall x
        ensures x in ReleasedAlong(env, st.Cache, order) <==> x in ReleasableValues(env, st.Cache)
      {
        if x in ReleasableValues(env, st.Cache) {
          var k :| k in st.Cache && Releasable(env, st.Cache[k]) && st.Cache[k] == x;
          var j :| 0 <= j < |order| && order[j] == k;
        }
      }
      assert ReleasedAlong(env, st.Cache, order) == ReleasableValues(env, st.Cache);
    }
  }
}
