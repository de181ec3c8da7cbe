# Tailcall IR: the rewrite operations on the resolver tree

This project models the intermediate representation (IR) that tailcall's
GraphQL gateway compiles each resolver into, and the three operations that
rewrite an IR tree, as found in `src/core/ir/model.rs`:

- `IR::modify` (with `modify_inner` and `modify_box`, which differ only in
  boxing): a top-down rewrite. Each node is offered to a modifier. A
  replacement is taken as it is and not entered. A declined node is rebuilt
  from its rewritten children. A `Cache` offers its IO as a bare `IO` node and
  re-wraps it only if an `IO` comes back.
- `Cache::wrap`: `modify` with a modifier that puts every IO node behind a
  cache with the given max age.
- `IR::modify_io`: an in-place traversal. It hands every IO reachable through
  `IO`, `Cache`, `Discriminate`, `Protect`, `Path`, `Pipe`, `Entity` and `Map`
  to a mutating callback. It does not enter `Merge`.

It also models the helpers that go with them: `IR::pipe`, `IO::dedupe`, the
`DataLoaderId` and `IoId` newtypes, and the shape of `CacheKey` for `IO`.

Files:

- `ir_model.dfy` (module `IrModel`): the `IR` and `IO` datatypes, the
  identifiers, `Dedupe`, `CacheKey` and `PipeWith`. The source's `Cache` and
  `Map` structs are written as the fields of the `IR` constructors of the same
  names. The struct field `map` is called `mapping`, because `map` is a Dafny
  keyword. Payloads owned by other parts of the gateway are abstract types.
  These are the dynamic value, auth, discriminator, the three request
  templates, group-by and worker hooks.
- `ir_modify.dfy` (module `IrModify`): `Modify`, and `Offered`, the nodes it
  hands to the modifier. The lemmas cover identity, replacement, data
  preservation and dependence on offered nodes only.
- `ir_cache.dfy` (module `IrCache`): `Wrap`. Its contract pins the result
  down uniquely (`CachedTreeIsUnique`), which gives idempotence.
- `ir_modify_io.dfy` (module `IrModifyIo`): the method `ModifyIo`. For every
  tree it returns, as a ghost value, the calls it made to the callback, each
  as a pair: the IO handed over and the IO left behind. `IsTrace` states
  which call sequences the source allows. An entity's values are visited
  whole, one after another, in any order of the keys. A pipe's first stage
  comes before its second, and a merge makes no call. `Ran` states that the
  callback, run over those calls from the initial state, gives the new IOs
  and the final state. The method is also proved against the stateless
  specification `MapIo` and against the state-threading specification
  `Thread`. The lemmas cover visiting order, reaching each IO exactly once,
  identity and composition.

## Model

| member | source | states |
|---|---|---|
| `IrModel.DataLoaderId.AsUsize` | src/core/ir/model.rs:92-94 | the id rebuilt from the returned number is the same id |
| `IrModel.NewDataLoaderId` | src/core/ir/model.rs:88-90 | `DataLoaderId::new(n).as_usize() == n` |
| `IrModel.IoId.AsU64` | src/core/ir/model.rs:105-107 | the id rebuilt from the returned number is the same id |
| `IrModel.NewIoId` | src/core/ir/model.rs:101-103 | `IoId::new(n).as_u64() == n` |
| `IrModel.IO.Dedupe` | src/core/ir/model.rs:74-81 | dedupe holds exactly when the IO is not a JS call and its stored flag is set |
| `IrModel.CacheKey` | src/core/ir/model.rs:211-219 | a JS call has no cache key; each other IO takes its key from its own request template |
| `IrModel.IR.PipeWith` | src/core/ir/model.rs:156-158 | `a.pipe(b)` is a `Pipe` node with `a` as first stage and `b` as second |
| `IrModify.Modify` | src/core/ir/model.rs:168-208 | a declined node keeps its own data: the path list, the auth, the key map and the discriminator stay the same; entity keys and merge length stay the same; `Dynamic`, `IO`, `ContextPath` and `Service` stay identical |
| `IrModify.ModifyNothingIsIdentity` | src/core/ir/model.rs:168-208 | a modifier that always returns `None` gives back a tree equal to the input; caches are rebuilt with the same IO and max age |
| `IrModify.ReplacedNodeIsNotEntered` | src/core/ir/model.rs:169-171 | when the modifier returns `Some(x)`, the result is exactly `x` and the node is the only one offered. A one-step unfolding: that the replaced node's children play no part follows only with `ModifyDependsOnlyOnOffered` |
| `IrModify.ModifyDependsOnlyOnOffered` | src/core/ir/model.rs:168-208 | two modifiers that agree on every offered node offer the same nodes and give the same result, so children of a replaced node play no part |
| `IrModify.ChildrenRewrittenInPlace` | src/core/ir/model.rs:175-203 | a declined node's children are each rewritten in their own place: pipe stages, inner IRs, entity values by key, and merge elements by index. A one-step unfolding of `Modify`, the per-node step of the inductive proofs `ModifyNothingIsIdentity` and `CachingSpec` |
| `IrModify.CacheOffersBareIo` | src/core/ir/model.rs:181-187 | a declined cache offers its IO as a bare `IO` node; an `IO` result is re-wrapped with the same max age, any other result replaces the cache. A one-step unfolding; it covers the cache case that `Modify`'s own contract leaves open |
| `IrCache.Wrap` | src/core/ir/model.rs:125-130 | after wrapping, no bare `IO` remains and every cache has the new max age; with caches stripped, the tree equals the input, so each IO stays in its place |
| `IrCache.WrapCachesIo` | src/core/ir/model.rs:179-187 | `IO(io)` becomes `Cache(m, io)`, and an existing `Cache(old, io)` becomes `Cache(m, io)`. A one-step instance; for whole trees the statement is `Wrap`'s contract with `LastWrapWins` |
| `IrCache.CachedTreeIsUnique` | src/core/ir/model.rs:125-130 | Wrap's three properties determine the tree: no bare IO, every cache at the same max age, and the same stripped tree |
| `IrCache.WrapIsIdempotent` | src/core/ir/model.rs:125-130 | `wrap(m, wrap(m, e)) == wrap(m, e)` |
| `IrCache.LastWrapWins` | src/core/ir/model.rs:181-186 | wrapping with a second max age re-ages the first wrap's caches without nesting: `wrap(m2, wrap(m1, e)) == wrap(m2, e)` |
| `IrModifyIo.ModifyIo` | src/core/ir/model.rs:135-154 | for every tree, the calls made (`steps`) form an `IsTrace` of the tree: one call per IO and cache, a pipe's first stage before its second, each entity value visited whole under some order of the keys, and no call under a merge or at a leaf. The callback run over those calls (`Ran`) yields exactly the new IOs and the final state. Only IO payloads change. A stateless callback gives `MapIo`, and a tree with no reachable entity gives `Thread` |
| `IrModifyIo.ModifyEntityIo` | src/core/ir/model.rs:146-150 | every value of the entity is traversed once, in an order of the keys the method picks, each with the state the previous one left: the calls are the concatenation of the values' traces in that order |
| `IrModifyIo.MapIoIdentity` | src/core/ir/model.rs:135-154 | a callback that leaves every IO alone leaves the tree alone |
| `IrModifyIo.MapIoComposes` | src/core/ir/model.rs:135-154 | two traversals in a row equal one traversal with the composed callback |
| `IrModifyIo.ThreadVisitsInOrder` | src/core/ir/model.rs:137-145 | on an entity-free tree, a recording callback sees exactly the reachable IOs, each once, in traversal order, and changes nothing |
| `IrModifyIo.PipeVisitsFirstThenNext` | src/core/ir/model.rs:142-145 | in `a.pipe(b)` the IOs of `a` are reached before those of `b`. A one-step unfolding of `ReachedIos`; for pipes whose second stage holds entities the statement is `PipeFirstStageRecordedFirst` |
| `IrModifyIo.MergeIsNotEntered` | src/core/ir/model.rs:152 | `Thread` and `ReachedIos` leave a `Merge` alone. A one-step unfolding; for every callback and trace the statement is `NoCallForUnenteredNode` |
| `IrModifyIo.RecorderLogsCalls` | src/core/ir/model.rs:135-137 | a recording callback run over a sequence of calls ends with its log extended by exactly the IOs handed over, in call order, and leaves each IO as it was |
| `IrModifyIo.TraceOfEntityFree` | src/core/ir/model.rs:137-145 | on a tree whose traversal reaches no entity, every trace hands over exactly `ReachedIos(e)`, in that order |
| `IrModifyIo.PipeFirstStageRecordedFirst` | src/core/ir/model.rs:142-145 | in `a.pipe(b)` with `a` entity-free and `b` arbitrary (entities included), a recording callback's log begins with the old log followed by the IOs of `a` |
| `IrModifyIo.NoCallForUnenteredNode` | src/core/ir/model.rs:146-152 | a `Merge`, `Dynamic`, `ContextPath` or `Service` node, and an entity with no keys, makes no call: the tree and the callback's state come back unchanged |
| `IrModifyIo.TraceHandsOverEachIoOnce` | src/core/ir/model.rs:135-154 | for every tree, entities included, the IOs handed to the callback are those reachable by the traversal, each exactly as often as it occurs (equal as multisets) |
| `IrModifyIo.EntityIosTakeAny` | src/core/ir/model.rs:146-150 | the reachable IOs of an entity do not depend on which key is visited first, so any visiting order hands over the same IOs |

## Left out

- The modifier given to `modify` is a Rust `FnMut`, which may keep state between calls. Here it is a pure function `IR -> Option<IR>`. The set `Offered` stands for the calls made. The order of those calls is not modelled, and for entity values Rust leaves it unspecified anyway.
- `IrModifyIo.ModifyIo` takes `&mut self` in the source. The tree is a Dafny value, so the method returns the updated tree and the callback's final state instead of updating in place. An owned tree has no aliasing, so nothing is lost.
- IrModifyIo.ModifyIo: the order in which an entity's values are visited is not fixed, because Rust's `HashMap` iterates in an unspecified order. The method picks the next key nondeterministically, and `IsTrace` allows any order of the keys. The closed form `Thread` is stated only for trees whose traversal reaches no `Entity`; for all trees the contract is `IsTrace` with `Ran`.
- IrModifyIo.ThreadVisitsInOrder: stated only for trees whose traversal reaches no `Entity`, because the order across entity values is unspecified. For every tree, `TraceHandsOverEachIoOnce` gives the IOs handed over without their order.
- IrModifyIo.PipeVisitsFirstThenNext: stated on `ReachedIos`, which is defined only for entity-free stages. `PipeFirstStageRecordedFirst` covers a second stage that holds entities.
- `usize` is taken to be 64 bits wide.
- `CacheKey` for the HTTP, gRPC and GraphQL templates is computed by the templates themselves, which are not part of this model. Those computations are parameters.
- The `Display` output derived by `strum` is not modelled. It is generated formatting with no logic.
- `src/core/blueprint/operators/mod.rs` only re-exports other modules.
