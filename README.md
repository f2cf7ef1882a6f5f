# BodyComponentDB in Dafny

This project models `BodyComponentDB` from Pioneer's `src/BodyComponent.h`. It is a single-threaded, process-wide registry that attaches component values to game objects (`Body*`) by identity. The registry has three parts:

- **Pools.** `Pool<T>` holds at most one component of type `T` per body. It supports create-or-fetch (`newComponent`), fetch-that-must-exist (`get`) and erase (`deleteComponent`).
- **The type-to-pool registry.** `GetComponentType<T>()` creates a type's pool lazily, on the first request for that type. The new pool gets the next dense index from a counter, is stored under the type's id and is appended to the dense sequence. `GetComponentType(index)` looks a pool up by its dense index.
- **The serializer registry.** `RegisterSerializer<T>(name)` binds a new name to a `Serializer<T>` and sets the pool's back-reference to it. `GetSerializer(name)` looks a serializer up by name, or returns null. A serializer's `toJson` fetches the body's component with `get`. Its `fromJson` creates or reuses the component with `newComponent`, then loads the document into it.

The project has two modules:

- `ComponentSpec` (`component_spec.dfy`) gives the value-level meaning of the operations and proves the properties that relate several calls:
  - `Created` and `Erased` give a pool's map after `newComponent` and `deleteComponent`.
  - `TypeTable` and `Request` give the type ids and dense indices.
  - `Saved` and `Loaded` describe the serializer glue.
- `BodyComponentDB` (`body_component_db.dfy`) holds the three classes that the source mutates in place. Their methods are proved against `ComponentSpec`:
  - `Pool` has fields `components`, `serializer`, `componentIndex` and `componentType`, and a constant `defaultValue`. `defaultValue` stands for the `T()` that `operator[]` constructs on a miss.
  - `Serializer` binds a type name to a pool.
  - `ComponentDB` holds the static tables `m_componentPools`, `m_componentSerializers`, `m_componentTypes` and `m_componentIdx`, as the fields `pools`, `serializers`, `types` and `idx`.

The object invariant is `ComponentDB.Valid()`. It has two parts:

- **`Indexed`.** The counter equals the number of pools, and dense indices are consecutive from 0. Each pool is keyed by its own type id and sits at its own index in `types`, so each pool appears once in each structure.
- **`Linked`.** Every serializer is stored under its own name and is bound to a registered pool. Every pool's serializer back-reference is itself registered, and it points back to that pool.

The C++ stores `Pool<T>` for many types `T` behind `PoolBase*`. The model gives every component type one value type `C`. A `ComponentKind<C>` datatype stands for a C++ type `T`, and carries:

- its `TypeId<T>::Get()`;
- its default-constructed value;
- its own `SaveToJson` and `LoadFromJson`, as function values.

The body handle, the JSON document and the `Space*` context are opaque types: `Body`, `Json` and `Space`. A component's save takes the document and returns the new document, which models the in-place write to `Json &`.

## Model

| member | source | states |
|---|---|---|
| `BodyComponentDB.Pool.constructor` | src/BodyComponent.h:41-48 | A new pool holds the given dense index and type id, has no serializer and has no components. |
| `BodyComponentDB.Pool.DeleteComponent` | src/BodyComponent.h:62 | Afterwards `b` has no component. Every other body's component is unchanged. It is a no-op when `b` had none. |
| `BodyComponentDB.Pool.NewComponent` | src/BodyComponent.h:63-64 | Returns `b`'s existing component and changes nothing when there is one. Otherwise it inserts and returns the default value, and no other entry changes. Afterwards `b` has a component equal to the returned value. |
| `BodyComponentDB.Pool.Get` | src/BodyComponent.h:65-66 | Requires `b` to have a component. Returns exactly the stored component and changes nothing. |
| `ComponentSpec.CreateKeepsExisting` | src/BodyComponent.h:63-64 | After create-or-fetch, `b` is present and the key set grows by at most `b`. An existing entry is kept as it was, and a missing one becomes the default. Other entries keep their values. |
| `ComponentSpec.CreateIdempotent` | src/BodyComponent.h:64 | A second create-or-fetch on the same body changes nothing, whatever default it would use. |
| `ComponentSpec.EraseRemovesOnly` | src/BodyComponent.h:62 | Erase removes exactly `b` from the domain. It is a no-op when `b` is absent, and other bodies keep their components. |
| `ComponentSpec.NoResurrection` | src/BodyComponent.h:62-64 | Deleting and then creating gives `b` the default-constructed value, not its old component. Other bodies are untouched. |
| `BodyComponentDB.Serializer.constructor` | src/BodyComponent.h:85-89 | A serializer holds its type name, its pool and the type's save and load. |
| `BodyComponentDB.Serializer.ToJson` | src/BodyComponent.h:91-94 | Requires `b` to have a component, as `get` does. The document is what that stored component's save produces. |
| `BodyComponentDB.Serializer.FromJson` | src/BodyComponent.h:96-100 | The pool's map becomes `Loaded`: create-or-fetch first, then load the document over the resulting component. |
| `ComponentSpec.LoadOverlaysExisting` | src/BodyComponent.h:80-82 | Load receives the component the owner already set up when `b` had one, and the default value otherwise. Afterwards `b` has a component, and no other body changes. |
| `ComponentSpec.SaveLoadRoundTrip` | src/BodyComponent.h:91-100 | Take a save/load pair that are inverses. Saving `from`'s component and loading the document into `to` gives `to` a component equal to the original, and every other body is unchanged. |
| `BodyComponentDB.ComponentDB.constructor` | src/BodyComponent.h:149-152 | The registry starts empty with counter 0, and the invariant holds. |
| `BodyComponentDB.ComponentDB.GetComponentType` | src/BodyComponent.h:104-115 | Keeps the invariant, and the returned pool is the one stored under the type id. A repeated request returns the same pool and changes neither the map, the sequence nor the counter. On a miss it returns a fresh empty pool whose index is the old counter. The pool is then inserted and appended, and the counter goes up by one. Serializers do not change. |
| `BodyComponentDB.ComponentDB.GetComponentTypeByIndex` | src/BodyComponent.h:117-123 | Requires `index` to be below the length of `types`. Returns the pool whose `componentIndex` is `index`, which is also the pool stored under its own type id. |
| `BodyComponentDB.ComponentDB.RegisterSerializer` | src/BodyComponent.h:125-134 | Requires the name to be unregistered and always returns true. The name then maps to a fresh serializer for the type's pool, created if needed, and that pool's back-reference points to it. If the type had no pool, the new pool is fresh and empty, holds the type's default, and gets the old counter as its index. It is inserted and appended, and the counter goes up by one. If the type had a pool, the map, the sequence and the counter are unchanged. Every name registered earlier still resolves to the same serializer. Other pools' back-references are unchanged, and the invariant is kept. |
| `BodyComponentDB.ComponentDB.AttachSerializer` | src/BodyComponent.h:132 | Requires the type's pool to exist and the serializer to be already stored under its name. A second lookup of the pool changes neither the map, the sequence, the counter nor the serializers. The pool's back-reference then points to the serializer, and the invariant is kept. |
| `BodyComponentDB.ComponentDB.GetSerializer` | src/BodyComponent.h:136-146 | Returns non-null exactly when the name is registered, and then returns the serializer stored under that name. That serializer's pool is registered. Nothing changes. |
| `ComponentSpec.RequestKeepsDense` | src/BodyComponent.h:107-111 | A request keeps indices dense, and afterwards the type has a pool. A first request hands out the old counter and appends. A repeated request changes nothing. No other type's index moves. |
| `ComponentSpec.RequestIdempotent` | src/BodyComponent.h:105-115 | Requesting the same type twice is the same as requesting it once. |
| `ComponentSpec.DenseIndexOrder` | src/BodyComponent.h:105-115 | Take any sequence of requests starting from the empty registry. The dense sequence lists the distinct types in order of first request, however often each is repeated. The i-th new type gets index i, and exactly the requested types have pools. |
| `BodyComponentDB.AppendKeepsIndexed` | src/BodyComponent.h:108-111 | The miss branch creates the pool with the counter as its index, bumps the counter, inserts and appends. This keeps the two structures and the counter consistent, and matches `Request`. |

## Left out

- `TypeId<T>::Get()` (core/TypeId.h) is not part of this model. A type id is the `typeId` field of a `ComponentKind`, assumed injective: two kinds with the same id stand for the same type. So on a repeated request, `GetComponentType` keeps the pool made by the first request and ignores the default carried by the new `kind`.
- Component save/load logic, the JSON document and the `Space*` context are not modelled. They are foreign calls, represented by the opaque types `Json` and `Space` and by the function values in `ComponentKind`. Only the order of calls and the preconditions around them are modelled.
- Type erasure is not modelled. That covers the `PoolBase`/`SerializerBase` virtual interfaces and the `static_cast` downcast in `GetComponentType<T>()`. All pools hold the one value type `C`, so the downcast has nothing to check. Its validity in the C++ rests on the one-pool-per-type-id invariant, which `Valid()` states.
- Memory management is not modelled: `new`, `unique_ptr` ownership, and teardown at process exit. Static-initialisation order is not modelled either. The static tables are the fields of one `ComponentDB` object built by its constructor.
- Pointers returned by `newComponent` and `get` are returned as values. A caller writing through them is not modelled. `LoadFromJson`, called through the pointer from `newComponent`, is modelled: `Serializer.FromJson` stores the loaded value into the pool's map, as the friend declaration allows.
- `Serializer.ToJson`: a component's `SaveToJson` is assumed not to modify the component. It is called through the non-const pointer returned by `get` (src/BodyComponent.h:93), so the C++ does not rule a change out. The model's `save` returns only the new document, and `ToJson` changes no state. `SaveLoadRoundTrip`'s promise that `from` keeps its component depends on this assumption.
- The `assert`s and `std::map::at` are modelled as preconditions: the name must be new, the index must be in range, and the component must exist for `get`/`toJson`. The model does not say what a build with `NDEBUG` does when they fail.
- `size_t` wrap-around of `m_componentIdx` is not modelled. Indices are unbounded `nat`.
- Thread safety is not modelled. The registry has no locking, by design.
