/**
 * Value-level specification of the component database: what a pool's map
 * becomes under create-or-fetch and erase, how the type-to-pool registry hands
 * out dense indices, and how a serializer moves a component through a document.
 * The classes in module BodyComponentDB are proved against these definitions.
 */
module ComponentSpec {

  /** Identity of a game object; only ever compared, never dereferenced. */
  type Body(==)

  /** The persisted document a component saves itself into and loads itself from. */
  type Json

  /** The world context handed through, uninterpreted, to a component's save and load. */
  type Space

  // ---------------------------------------------------------------------------
  // Pool storage: one component per body
  // ---------------------------------------------------------------------------

  /** The pool's map after `newComponent(b)`: an existing entry is kept, a missing one is default-constructed. */
  function Created<C>(m: map<Body, C>, b: Body, default: C): map<Body, C>
  {
    if b in m then m else m[b := default]
  }

  /** The pool's map after `deleteComponent(b)`. */
  function Erased<C>(m: map<Body, C>, b: Body): map<Body, C>
  {
    m - {b}
  }

  /** Create-or-fetch never replaces an existing component and touches no other body. */
  lemma CreateKeepsExisting<C>(m: map<Body, C>, b: Body, default: C)
    ensures b in Created(m, b, default)
    ensures Created(m, b, default).Keys == m.Keys + {b}
    ensures b in m ==> Created(m, b, default) == m
    ensures b !in m ==> Created(m, b, default)[b] == default
    ensures forall o :: o in m ==> Created(m, b, default)[o] == m[o]
  {
  }

  /** Calling create-or-fetch twice is the same as calling it once, whatever default the second call would use. */
  lemma CreateIdempotent<C>(m: map<Body, C>, b: Body, default: C, other: C)
    ensures Created(Created(m, b, default), b, other) == Created(m, b, default)
  {
  }

  /** Erasing removes exactly `b`, is a no-op when `b` is absent, and leaves every other body's component alone. */
  lemma EraseRemovesOnly<C>(m: map<Body, C>, b: Body)
    ensures Erased(m, b).Keys == m.Keys - {b}
    ensures b !in m ==> Erased(m, b) == m
    ensures forall o :: o in m && o != b ==> Erased(m, b)[o] == m[o]
  {
  }

  /** Deleting and then re-creating gives a freshly default-constructed component, never the old one. */
  lemma NoResurrection<C>(m: map<Body, C>, b: Body, default: C)
    ensures b in Created(Erased(m, b), b, default)
    ensures Created(Erased(m, b), b, default)[b] == default
    ensures forall o :: o in m && o != b ==> Created(Erased(m, b), b, default)[o] == m[o]
  {
  }

  // ---------------------------------------------------------------------------
  // Type-to-pool registry: type ids and dense indices
  // ---------------------------------------------------------------------------

  /**
   * The registry as seen through the pools' indices: `byType` maps a type id to
   * its pool's dense index, `byIndex` lists the type ids in the order their
   * pools were appended, `counter` is the next index to hand out.
   */
  datatype TypeTable = TypeTable(byType: map<nat, nat>, byIndex: seq<nat>, counter: nat)

  /** The registry before any pool has been requested. */
  const EmptyTable := TypeTable(map[], [], 0)

  /**
   * The registry invariant: the counter equals the number of pools, the
   * indices are exactly 0 .. counter-1, and the two structures describe the
   * same pools (each pool is found at its own index and under its own type id).
   */
  ghost predicate Dense(t: TypeTable)
  {
    && t.counter == |t.byIndex|
    && (forall i :: 0 <= i < |t.byIndex| ==> t.byIndex[i] in t.byType && t.byType[t.byIndex[i]] == i)
    && (forall id :: id in t.byType ==> t.byType[id] < |t.byIndex| && t.byIndex[t.byType[id]] == id)
  }

  /** The registry after `GetComponentType<T>()` for the type with id `id`. */
  function Request(t: TypeTable, id: nat): TypeTable
  {
    if id in t.byType then t
    else TypeTable(t.byType[id := t.counter], t.byIndex + [id], t.counter + 1)
  }

  lemma EmptyTableIsDense()
    ensures Dense(EmptyTable) && |EmptyTable.byIndex| == 0
  {
  }

  /**
   * A request keeps the registry dense; afterwards the type has a pool; a
   * first request hands out the old counter and appends, a repeated one
   * changes nothing; and no other type's index moves.
   */
  lemma RequestKeepsDense(t: TypeTable, id: nat)
    requires Dense(t)
    ensures Dense(Request(t, id))
    ensures id in Request(t, id).byType
    ensures id in t.byType ==> Request(t, id) == t
    ensures id !in t.byType ==> Request(t, id).byType[id] == t.counter
    ensures id !in t.byType ==> Request(t, id).byIndex == t.byIndex + [id]
    ensures forall other :: other in t.byType ==> other in Request(t, id).byType && Request(t, id).byType[other] == t.byType[other]
  {
    if id !in t.byType {
      var r := Request(t, id);
      forall i | 0 <= i < |r.byIndex|
        ensures r.byIndex[i] in r.byType && r.byType[r.byIndex[i]] == i
      {
        if i < |t.byIndex| {
          assert r.byIndex[i] == t.byIndex[i];
          assert t.byIndex[i] != id;
        }
      }
    }
  }

  /** A second request for the same type is a no-op. */
  lemma RequestIdempotent(t: TypeTable, id: nat)
    ensures Request(Request(t, id), id) == Request(t, id)
  {
  }

  /** The registry after requesting the types `ids`, in order, starting empty. */
  function RequestAll(ids: seq<nat>): TypeTable
  {
    if ids == [] then EmptyTable
    else Request(RequestAll(ids[..|ids| - 1]), ids[|ids| - 1])
  }

  /** The distinct elements of `ids`, in the order of their first occurrence. */
  function FirstOccurrences(ids: seq<nat>): seq<nat>
  {
    if ids == [] then []
    else
      var prefix := FirstOccurrences(ids[..|ids| - 1]);
      if ids[|ids| - 1] in prefix then prefix else prefix + [ids[|ids| - 1]]
  }

  /**
   * Dense indices are handed out in first-request order, however often each
   * type is requested again: the type first requested gets index 0, the next
   * new one index 1, and so on; and exactly the requested types have pools.
   */
  lemma {:induction false} DenseIndexOrder(ids: seq<nat>)
    ensures Dense(RequestAll(ids))
    ensures RequestAll(ids).byIndex == FirstOccurrences(ids)
    ensures forall id :: id in RequestAll(ids).byType <==> id in ids
    ensures forall i :: 0 <= i < |FirstOccurrences(ids)| ==> RequestAll(ids).byType[FirstOccurrences(ids)[i]] == i
  {
    if ids == [] {
      EmptyTableIsDense();
    } else {
      var init, last := ids[..|ids| - 1], ids[|ids| - 1];
      assert ids == init + [last];
      DenseIndexOrder(init);
      var t := RequestAll(init);
      RequestKeepsDense(t, last);
      assert last in t.byType <==> last in FirstOccurrences(init) by {
        if last in FirstOccurrences(init) {
          var k :| 0 <= k < |t.byIndex| && t.byIndex[k] == last;
        }
      }
      forall id
        ensures id in RequestAll(ids).byType <==> id in ids
      {
        assert id in ids <==> id in init || id == last;
      }
    }
  }

  // ---------------------------------------------------------------------------
  // Serialization glue
  // ---------------------------------------------------------------------------

  /** The document after `toJson(b, doc, space)`: the stored component of `b` saves itself into `doc`. */
  function Saved<C>(m: map<Body, C>, b: Body, save: (C, Json, Space) -> Json, doc: Json, space: Space): Json
    requires b in m
  {
    save(m[b], doc, space)
  }

  /**
   * The pool's map after `fromJson(b, doc, space)`: create-or-fetch first,
   * then the component loads itself from `doc` on top of what it held.
   */
  function Loaded<C>(m: map<Body, C>, b: Body, default: C, load: (C, Json, Space) -> C, doc: Json, space: Space): map<Body, C>
  {
    var created := Created(m, b, default);
    created[b := load(created[b], doc, space)]
  }

  /**
   * Load reads its input from the component that create-or-fetch produced:
   * one the owner already set up (with its defaults) when `b` had one, the
   * default-constructed value otherwise; no other body changes.
   */
  lemma LoadOverlaysExisting<C>(m: map<Body, C>, b: Body, default: C, load: (C, Json, Space) -> C, doc: Json, space: Space)
    ensures Loaded(m, b, default, load, doc, space).Keys == m.Keys + {b}
    ensures b in m ==> Loaded(m, b, default, load, doc, space)[b] == load(m[b], doc, space)
    ensures b !in m ==> Loaded(m, b, default, load, doc, space)[b] == load(default, doc, space)
    ensures forall o :: o in m && o != b ==> Loaded(m, b, default, load, doc, space)[o] == m[o]
  {
  }

  /** A save/load pair that are inverses on `doc`: loading what was saved restores it, whatever was loaded into. */
  ghost predicate Inverse<C(!new)>(save: (C, Json, Space) -> Json, load: (C, Json, Space) -> C, doc: Json, space: Space)
  {
    forall c: C, into: C :: load(into, save(c, doc, space), space) == c
  }

  /**
   * Round trip: saving `from`'s component and loading the document into `to`
   * gives `to` a component equal to the original, and leaves every other
   * body (including `from`) as it was.
   */
  lemma SaveLoadRoundTrip<C(!new)>(m: map<Body, C>, from: Body, to: Body, default: C,
                                  save: (C, Json, Space) -> Json, load: (C, Json, Space) -> C,
                                  doc: Json, space: Space)
    requires from in m
    requires Inverse(save, load, doc, space)
    ensures to in Loaded(m, to, default, load, Saved(m, from, save, doc, space), space)
    ensures Loaded(m, to, default, load, Saved(m, from, save, doc, space), space)[to] == m[from]
    ensures forall o :: o in m && o != to ==> Loaded(m, to, default, load, Saved(m, from, save, doc, space), space)[o] == m[o]
  {
    var into := Created(m, to, default)[to];
    assert load(into, save(m[from], doc, space), space) == m[from];
  }
}
