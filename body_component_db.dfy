/**
 * BodyComponentDB: a registry attaching component values to game objects
 * (bodies) by identity, with one pool per component type, a dense index per
 * pool, and serializers registered by name.
 *
 * C++ stores `Pool<T>` for many different `T` behind one `PoolBase` pointer.
 * Here every component type's values live in one value type `C`, and a
 * `ComponentKind<C>` stands for a C++ type `T`: its type id, its
 * default-constructed value, and its own SaveToJson / LoadFromJson.
 * The process-wide static tables are the fields of one `ComponentDB` object.
 */
module BodyComponentDB {
  import opened ComponentSpec

  /** What the registry uses of a component type `T`. */
  datatype ComponentKind<!C> = ComponentKind(
    typeId: nat,                           // TypeId<T>::Get()
    default: C,                            // T()
    save: (C, Json, Space) -> Json,        // T::SaveToJson(Json &, Space *)
    load: (C, Json, Space) -> C            // T::LoadFromJson(const Json &, Space *)
  )

  /** Storage of all live components of one type, keyed by body. */
  class Pool<C> {
    const componentIndex: nat
    const componentType: nat
    const defaultValue: C
    var serializer: Serializer?<C>
    var components: map<Body, C>

    constructor (index: nat, typeId: nat, default: C)
      ensures componentIndex == index && componentType == typeId && defaultValue == default
      ensures serializer == null && components == map[]
    {
      componentIndex, componentType, defaultValue := index, typeId, default;
      serializer := null;
      components := map[];
    }

    /** Removes `b`'s component; a no-op when it has none. */
    method DeleteComponent(b: Body)
      modifies this`components
      ensures components == Erased(old(components), b)
      ensures b !in components
      ensures forall o :: o in old(components) && o != b ==> o in components && components[o] == old(components)[o]
    {
      components := components - {b};
    }

    /** Returns `b`'s component, default-constructing and inserting it first when it has none. */
    method NewComponent(b: Body) returns (c: C)
      modifies this`components
      ensures components == Created(old(components), b, defaultValue)
      ensures b in components && c == components[b]
      ensures b in old(components) ==> c == old(components)[b] && components == old(components)
      ensures b !in old(components) ==> c == defaultValue
    {
      if b !in components {
        components := components[b := defaultValue];
      }
      c := components[b];
    }

    /** Returns `b`'s component, which the caller guarantees exists. */
    method Get(b: Body) returns (c: C)
      requires b in components
      ensures c == components[b]
    {
      c := components[b];
    }
  }

  /** Binds a type name to a pool and drives that type's own save and load. */
  class Serializer<C> {
    const typeName: string
    const pool: Pool<C>
    const save: (C, Json, Space) -> Json
    const load: (C, Json, Space) -> C

    constructor (name: string, pool: Pool<C>, save: (C, Json, Space) -> Json, load: (C, Json, Space) -> C)
      ensures typeName == name && this.pool == pool && this.save == save && this.load == load
    {
      typeName, this.pool, this.save, this.load := name, pool, save, load;
    }

    /** Saves `b`'s component into `doc`; `b` must already have one. */
    method ToJson(b: Body, doc: Json, space: Space) returns (out: Json)
      requires b in pool.components
      ensures out == Saved(pool.components, b, save, doc, space)
    {
      var c := pool.Get(b);
      out := save(c, doc, space);
    }

    /** Creates or reuses `b`'s component, then loads `doc` into it. */
    method FromJson(b: Body, doc: Json, space: Space)
      modifies pool`components
      ensures pool.components == Loaded(old(pool.components), b, pool.defaultValue, load, doc, space)
    {
      var c := pool.NewComponent(b);
      pool.components := pool.components[b := load(c, doc, space)];
    }
  }

  /** The type-to-pool registry and the name-to-serializer registry. */
  class ComponentDB<C> {
    var pools: map<nat, Pool<C>>
    var serializers: map<string, Serializer<C>>
    var types: seq<Pool<C>>
    var idx: nat

    /** The registry's type ids and dense indices. */
    ghost function Table(): TypeTable
      reads this
    {
      TableOf(pools, types, idx)
    }

    /**
     * The registry invariant: dense indices, every pool keyed by its own type
     * id and found at its own index, every serializer stored under its own
     * name and bound to a registered pool, and every pool's serializer
     * back-reference registered and pointing back to that pool.
     */
    ghost predicate Valid()
      reads this, pools.Values
    {
      Indexed() && Linked()
    }

    /** The two pool structures and the counter agree. */
    ghost predicate Indexed()
      reads this
    {
      IndexedPools(pools, types, idx)
    }

    /** Serializers and the pools' back-references to them agree. */
    ghost predicate Linked()
      reads this, pools.Values
    {
      && (forall n :: n in serializers ==>
            && serializers[n].typeName == n
            && serializers[n].pool.componentType in pools
            && pools[serializers[n].pool.componentType] == serializers[n].pool)
      && (forall p :: p in pools.Values && p.serializer != null ==>
            && p.serializer.typeName in serializers
            && serializers[p.serializer.typeName] == p.serializer
            && p.serializer.pool == p)
    }

    constructor ()
      ensures Valid()
      ensures pools == map[] && serializers == map[] && types == [] && idx == 0
    {
      pools, serializers, types, idx := map[], map[], [], 0;
    }

    /**
     * Returns the pool for `kind`, creating it on first request with the next
     * dense index and appending it; later requests return the same pool and
     * change nothing.
     */
    method GetComponentType(kind: ComponentKind<C>) returns (p: Pool<C>)
      requires Valid()
      modifies this
      ensures Valid()
      ensures Table() == Request(old(Table()), kind.typeId)
      ensures kind.typeId in pools && p == pools[kind.typeId] && p.componentType == kind.typeId
      ensures kind.typeId in old(pools) ==>
                p == old(pools)[kind.typeId] && pools == old(pools) && types == old(types) && idx == old(idx)
      ensures kind.typeId !in old(pools) ==>
                && fresh(p) && p.componentIndex == old(idx) && p.defaultValue == kind.default
                && p.components == map[] && p.serializer == null
                && pools == old(pools)[kind.typeId := p] && types == old(types) + [p] && idx == old(idx) + 1
      ensures serializers == old(serializers)
    {
      if kind.typeId !in pools {
        p := new Pool(idx, kind.typeId, kind.default);
        AppendKeepsIndexed(pools, types, idx, p);
        idx := idx + 1;
        pools := pools[kind.typeId := p];
        types := types + [p];
        assert Linked() by {
          forall n | n in serializers
            ensures serializers[n].pool.componentType in pools && pools[serializers[n].pool.componentType] == serializers[n].pool
          {
            assert serializers[n].pool.componentType in old(pools);
          }
          forall q | q in pools.Values && q.serializer != null
            ensures q in old(pools).Values
          {
            if q != p {
              var t :| t in pools && pools[t] == q;
              assert t in old(pools);
            }
          }
        }
      }
      p := pools[kind.typeId];
    }

    /** Returns the pool with dense index `index`, which must have been handed out. */
    method GetComponentTypeByIndex(index: nat) returns (p: Pool<C>)
      requires Valid()
      requires index < |types|
      ensures p.componentIndex == index
      ensures p.componentType in pools && pools[p.componentType] == p
      ensures p == types[index]
    {
      p := types[index];
      assert Table().byIndex[index] == p.componentType;
    }

    /**
     * Registers a serializer for `kind` under `name`, which must be new:
     * creates the pool if needed, stores the serializer and makes it the
     * pool's back-reference. Names registered earlier keep resolving as before.
     */
    method RegisterSerializer(kind: ComponentKind<C>, name: string) returns (ok: bool)
      requires Valid()
      requires name !in serializers
      modifies this, pools.Values`serializer
      ensures Valid()
      ensures ok
      ensures Table() == Request(old(Table()), kind.typeId)
      ensures kind.typeId in old(pools) ==> pools == old(pools) && types == old(types) && idx == old(idx)
      ensures kind.typeId !in old(pools) ==>
                && kind.typeId in pools && fresh(pools[kind.typeId]) && pools[kind.typeId].componentIndex == old(idx)
                && pools[kind.typeId].defaultValue == kind.default && pools[kind.typeId].components == map[]
                && pools == old(pools)[kind.typeId := pools[kind.typeId]]
                && types == old(types) + [pools[kind.typeId]] && idx == old(idx) + 1
      ensures name in serializers && serializers == old(serializers)[name := serializers[name]]
      ensures fresh(serializers[name])
      ensures serializers[name].typeName == name
      ensures serializers[name].save == kind.save && serializers[name].load == kind.load
      ensures kind.typeId in pools && serializers[name].pool == pools[kind.typeId]
      ensures pools[kind.typeId].serializer == serializers[name]
      ensures forall t :: t in old(pools) ==> t in pools && pools[t] == old(pools)[t]
      ensures forall p :: p in old(pools.Values) && p != pools[kind.typeId] ==> p.serializer == old(p.serializer)
    {
      var pool := GetComponentType(kind);
      var serial := new Serializer(name, pool, kind.save, kind.load);
      serializers := serializers[name := serial];
      assert Indexed();
      assert Linked() by {
        forall p | p in pools.Values && p.serializer != null
          ensures p.serializer.typeName in serializers && serializers[p.serializer.typeName] == p.serializer
        {
          assert p.serializer.typeName != name;
        }
      }
      AttachSerializer(kind, serial);
      ok := true;
    }

    /**
     * The second half of registration: looks the pool up again (a repeated
     * request, so nothing in the registry changes) and points its serializer
     * back-reference at `serial`, which is already stored under its name.
     */
    method AttachSerializer(kind: ComponentKind<C>, serial: Serializer<C>)
      requires Valid()
      requires kind.typeId in pools && serial.pool == pools[kind.typeId]
      requires serial.typeName in serializers && serializers[serial.typeName] == serial
      modifies this, serial.pool`serializer
      ensures Valid()
      ensures pools == old(pools) && types == old(types) && idx == old(idx) && serializers == old(serializers)
      ensures pools[kind.typeId].serializer == serial
    {
      var again := GetComponentType(kind);
      again.serializer := serial;
      assert Indexed();
      assert Linked() by {
        forall p | p in pools.Values && p.serializer != null
          ensures p.serializer.typeName in serializers && serializers[p.serializer.typeName] == p.serializer
          ensures p.serializer.pool == p
        {
        }
      }
    }

    /** Returns the serializer registered under `name`, or null when there is none. */
    method GetSerializer(name: string) returns (s: Serializer?<C>)
      requires Valid()
      ensures s != null <==> name in serializers
      ensures s != null ==> s == serializers[name] && s.typeName == name
      ensures s != null ==> s.pool.componentType in pools && pools[s.pool.componentType] == s.pool
    {
      if name in serializers {
        s := serializers[name];
      } else {
        s := null;
      }
    }
  }

  /** The type ids of `ps`, in order. */
  ghost function TypeIds<C>(ps: seq<Pool<C>>): seq<nat>
  {
    seq(|ps|, i requires 0 <= i < |ps| => ps[i].componentType)
  }

  /** The type ids and dense indices of a registry whose pool map, pool sequence and counter are given. */
  ghost function TableOf<C>(pools: map<nat, Pool<C>>, types: seq<Pool<C>>, idx: nat): TypeTable
  {
    TypeTable(map t | t in pools :: pools[t].componentIndex, TypeIds(types), idx)
  }

  /**
   * The pool map, the pool sequence and the counter describe the same pools:
   * indices are dense, each pool is keyed by its own type id, and the pool at
   * position i of the sequence is the one registered under its type id.
   */
  ghost predicate IndexedPools<C>(pools: map<nat, Pool<C>>, types: seq<Pool<C>>, idx: nat)
  {
    && Dense(TableOf(pools, types, idx))
    && (forall t :: t in pools ==> pools[t].componentType == t)
    && (forall i :: 0 <= i < |types| ==> types[i].componentType in pools && pools[types[i].componentType] == types[i])
  }

  /**
   * Creating a pool for a type that has none, with the counter as its index,
   * then bumping the counter, inserting and appending (the miss branch of
   * `GetComponentType<T>()`) keeps the registry indexed, and does to its
   * type ids and indices exactly what `Request` says.
   */
  lemma AppendKeepsIndexed<C>(pools: map<nat, Pool<C>>, types: seq<Pool<C>>, idx: nat, p: Pool<C>)
    requires IndexedPools(pools, types, idx)
    requires p.componentType !in pools && p.componentIndex == idx
    ensures IndexedPools(pools[p.componentType := p], types + [p], idx + 1)
    ensures TableOf(pools[p.componentType := p], types + [p], idx + 1) == Request(TableOf(pools, types, idx), p.componentType)
  {
    var id := p.componentType;
    var before, after := TableOf(pools, types, idx), TableOf(pools[id := p], types + [p], idx + 1);
    RequestKeepsDense(before, id);
    assert TypeIds(types + [p]) == TypeIds(types) + [id];
    assert after.byType == before.byType[id := before.counter];
    assert after == Request(before, id);
    var newPools, newTypes := pools[id := p], types + [p];
    forall i | 0 <= i < |newTypes|
      ensures newTypes[i].componentType in newPools && newPools[newTypes[i].componentType] == newTypes[i]
    {
      if i < |types| {
        assert newTypes[i] == types[i];
        assert types[i].componentType != id;
      }
    }
  }
}
