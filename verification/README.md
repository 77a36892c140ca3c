# FunctionMaxima in Dafny

A model of `FunctionMaxima<A, V>`: a container that holds a finite function from
arguments to values as an ordered multiset of points (`function`), together with a
second ordered multiset (`maxima`) that always indexes the function's local maxima. A
point is a local maximum when no existing neighbour (by argument) has a strictly greater
value; plateaus and the two end points count. The index is ordered by value descending,
then by argument ascending.

The model keeps the source's shape:

- `points.dfy` (`Points`): a point and the two comparators.
- `seqs.dfy` (`Seqs`): position-based insertion and removal, shared by both ordered
  multisets.
- `point_store.dfy` (`PointStore`): the `function` multiset as a sequence ordered by
  argument. `find`, the upper-bound `insert` and `erase` are modelled. `Graph` is the
  map the store represents. `Assigned` and `Erased` state the store after `set_value`
  and after `erase`.
- `local_maxima.dfy` (`LocalMaxima`): `get_left`, `get_right` and `check_if_maxima`,
  with the position they skip. `MaximaSet` is the set of local maxima of a store.
- `maxima_index.dfy` (`MaximaIndex`): the `maxima` multiset as a sequence in the maxima
  order. `IndexesMaxima(m, s)` is the container's invariant.
- `update_maxima.dfy` (`MaximaUpdate`): the decisions of `update_maxima` (`PlanUpdate`).
  It proves that applying them to an index of the store before a mutation gives the
  index of the store after it.
- `function_maxima.dfy` (`Container`): the class `FunctionMaxima`. Its two fields are
  updated in place by `UpdateMaxima`, `SetValue`, `Erase` and `Assign`, and read by the
  functions `Size`, `ValueAt` and `Find`.

How the source's mechanisms are represented:

- **Iterators.** A position in a sequence stands for an iterator, and the length of the
  sequence stands for `end()`.
- **Stored points.** The index holds the points themselves rather than iterators to
  them.
- **The missing-argument error.** It is `InvalidArg`, the exception class the code
  throws.
- **Exceptions.** A `Fault` parameter says which fallible step of a call throws.
  `FailAt(k)` makes the `k`-th insertion into either multiset, counted from 0 within the
  call, throw. `FailLookup(k)` makes a lookup throw. In `operator=` it is the index lookup
  of the `k`-th copied point, which runs after that point was inserted. In `set_value`
  and `erase` it is one of the index lookups or value comparisons of `update_maxima`,
  and `k` is not used.
  These all run before its first index insertion, so which one throws does not change
  the outcome. They run exactly when the store before the mutation is not empty. A
  fault at a step the call does not perform does not fire.
- **Failure results.** Every public mutating method (`SetValue`, `Erase`, `Assign`)
  returns `ok`, which is false exactly when the fault names a step the call performs.
  When `ok` is false, both fields are exactly as they were before the call; this is the
  source's strong exception guarantee. The helper methods behind them state their own
  outcome on a throw: `InsertThenUpdate` leaves the store without the new point, and
  `UpdateMaxima` leaves the index as it was.
- **Equal elements.** Equal elements are inserted after their equals, as
  `std::multiset::insert` does. While a call is in progress, the store may hold a stale
  point next to its replacement. The index may hold the same point twice, because a
  stale entry and a new one can have the same argument and value. The weak orders
  `WeaklySorted` and `MaxWeaklySorted` describe these intermediate states.

## Model

| member | source | states |
|---|---|---|
| `Points.ArgBeforeIsStrictWeakOrder` | function_maxima.h:230-235 | the store comparator is a strict weak order in which two points are equivalent exactly when they have the same argument |
| `Points.MaximaBefore` | function_maxima.h:240-249 | the index comparator puts `p` first exactly when `p` has the larger value, or the same value and the smaller argument |
| `Points.MaximaBeforeIsStrictTotalOrder` | function_maxima.h:240-249 | the index comparator is "larger value first, then smaller argument" and a strict total order on points |
| `Seqs.IndexOf` | function_maxima.h:305-308 | the lookup `maxima.find(..)`: the first position holding the entry, and the end position exactly when the entry is absent |
| `PointStore.Find` | function_maxima.h:457-461 | the first position holding argument `a`, or the end position exactly when no point has argument `a` |
| `PointStore.UpperBound` | function_maxima.h:230-238 | the insertion point of the store: every point before it has an argument not greater than `a`, every point after it a greater one |
| `PointStore.Insert` | function_maxima.h:397-397 | the store's `insert` keeps the argument order, adds exactly the new point and puts it at the upper bound; the points before it keep their positions and the ones after it move one place right |
| `PointStore.FindIsUnique` | function_maxima.h:230-238 | in a store at rest the point with a given argument is the only one, so `find` finds it |
| `PointStore.GraphSize` | function_maxima.h:474-476 | `size()` of a store at rest equals the number of arguments in the function's domain |
| `PointStore.GraphOfReplace` | function_maxima.h:391-412 | replacing the point with argument `a` keeps the order and changes the function at `a` only |
| `PointStore.GraphOfInsert` | function_maxima.h:391-412 | adding a point with a new argument keeps the order and extends the function at that argument only |
| `PointStore.GraphOfRemove` | function_maxima.h:430-443 | removing a point keeps the order and drops exactly its argument from the function |
| `PointStore.Assigned` | function_maxima.h:391-412 | after `set_value(a, v)` the store is at rest, maps `a` to `v`, keeps every other argument's value, and grows by one exactly when `a` was new |
| `PointStore.Erased` | function_maxima.h:430-443 | after `erase(a)` the store is at rest, loses exactly `a`, shrinks by one exactly when `a` was present, and is unchanged when it was absent |
| `PointStore.AssignedIdempotent` | function_maxima.h:391-412 | setting the same value twice leaves the same store as setting it once |
| `PointStore.StoreErase` | function_maxima.h:106-106 | erasing one inserted point keeps the argument order and removes exactly one copy of it |
| `PointStore.EraseEachPoint` | function_maxima.h:117-119 | erasing a list of points one by one keeps the order and removes exactly those points |
| `PointStore.WeakEqualsSorted` | function_maxima.h:102-113 | a store holding the same points as a store at rest is that store, so undoing insertions restores the exact previous content |
| `LocalMaxima.Without` | function_maxima.h:304-304 | the store the neighbour lookups see: one position fewer exactly when the ignored position is a real one |
| `LocalMaxima.GetLeft` | function_maxima.h:269-282 | the left neighbour is left of `it` and never the ignored position, or it is the end position |
| `LocalMaxima.GetRight` | function_maxima.h:255-266 | the right neighbour is right of `it` and never the ignored position, or it is the end position |
| `LocalMaxima.NeighboursAreNearest` | function_maxima.h:255-282 | `get_left` and `get_right` return the nearest position on their side other than the ignored one (`it - 1` or `it - 2`, `it + 1` or `it + 2`), and the end position exactly when there is none |
| `LocalMaxima.NeighboursWithout` | function_maxima.h:255-282 | `get_left` and `get_right` return exactly the neighbours of the point in the store without the ignored position |
| `LocalMaxima.CheckIfMaxima` | function_maxima.h:285-300 | `check_if_maxima` holds exactly when the point is a local maximum (no strictly greater existing neighbour) of the store without the ignored position |
| `LocalMaxima.SortedMaximaAt` | function_maxima.h:285-300 | in a store at rest, a point belongs to the maxima set exactly when its position is a local maximum |
| `LocalMaxima.WindowLocality` | function_maxima.h:320-342 | changing at most one point leaves the maxima status of every point other than it and its two neighbours unchanged |
| `MaximaIndex.MxUpperBound` | function_maxima.h:240-252 | the insertion point of the index: after every entry that does not come after the new one, before every entry that does |
| `MaximaIndex.MxInsert` | function_maxima.h:344-366 | the index's `insert` keeps the maxima order and adds exactly one copy of the point |
| `MaximaIndex.MxErase` | function_maxima.h:377-385 | the index's `erase` of a found entry keeps the order and removes exactly one copy of it |
| `MaximaIndex.StrictCounts` | function_maxima.h:240-252 | an index in strict maxima order holds each point at most once |
| `MaximaIndex.CountsMakeStrict` | function_maxima.h:240-252 | an index in maxima order that holds no point twice is in strict order |
| `MaximaIndex.WeakEqualsStrict` | function_maxima.h:354-375 | an index holding the same points as an index at rest is that index, so rolling back insertions restores the exact previous index |
| `MaximaIndex.IndexIsUnique` | function_maxima.h:240-252 | the local maxima of a store determine its index completely, including its order |
| `MaximaIndex.EraseEach` | function_maxima.h:121-123 | erasing a list of entries one by one keeps the order and removes exactly those entries |
| `MaximaUpdate.TransientShape` | function_maxima.h:304-342 | before and after a mutation the store differs in at most the changed point; `get_left`/`get_right` find the points adjacent to it |
| `MaximaUpdate.LooksUpIffNonEmpty` | function_maxima.h:304-342 | `update_maxima` runs a lookup or a value comparison before its first insertion (`find` of the ignored point, or `find` and `check_if_maxima` on a neighbour) exactly when the store before the mutation is not empty |
| `MaximaUpdate.TransientOrder` | function_maxima.h:391-443 | the stores before and after the mutation that `update_maxima` sees are both at rest |
| `MaximaUpdate.PlanUpdate` | function_maxima.h:304-342 | each flag of `update_maxima` means what its name says: the stale point is indexed; the new point, or a neighbour, is now a local maximum and is not yet indexed, or is indexed and no longer one |
| `MaximaUpdate.PlanCount` | function_maxima.h:304-386 | applying the insertions and erasures `update_maxima` decides on yields, point by point, exactly the local maxima of the store after the mutation |
| `MaximaUpdate.PlanRestoresIndex` | function_maxima.h:344-386 | an ordered index holding those points is the index of the store after the mutation |
| `MaximaUpdate.PlanRemovalsPresent` | function_maxima.h:377-385 | every entry `update_maxima` erases is in the index and they are distinct, so each erasure finds its entry |
| `MaximaUpdate.RemovalsFit` | function_maxima.h:377-385 | erasures of entries that are in the index and pairwise distinct take away only entries the index holds |
| `MaximaUpdate.UpdateIsLocal` | function_maxima.h:320-342 | a mutation changes the maxima status only of the changed point and of the neighbours `get_left` and `get_right` find |
| `MaximaUpdate.PlanKeepsOthers` | function_maxima.h:304-385 | the decisions of `update_maxima` leave the count of every entry other than the changed point, the stale one and the two neighbours `get_left` and `get_right` find exactly as it was |
| `Container.FunctionMaxima.constructor` | function_maxima.h:37-37 | the default constructor builds the empty function with an empty, valid index |
| `Container.FunctionMaxima.Copy` | function_maxima.h:40-40 | the copy constructor yields a valid object with the same points and index as its source |
| `Container.FunctionMaxima.Size` | function_maxima.h:474-476 | `size()` is the number of arguments in the domain |
| `Container.FunctionMaxima.ValueAt` | function_maxima.h:416-426 | `value_at(a)` returns the value at `a`, and fails with `InvalidArg` exactly when `a` is outside the domain |
| `Container.FunctionMaxima.Find` | function_maxima.h:457-461 | `find(a)` is the position of the point with argument `a`, or `end()` exactly when `a` is outside the domain |
| `Container.FunctionMaxima.UpdateMaxima` | function_maxima.h:304-386 | on success the index is the index of the store without the ignored position; on a throw it is unchanged; a lookup fault makes it fail exactly when the store before the mutation is not empty, and an insertion fault exactly when its step is one of the planned insertions |
| `Container.FunctionMaxima.SetValue` | function_maxima.h:391-412 | `set_value(a, v)` keeps the invariant, makes the store the assigned store and the function `f[a := v]`; on a throw both fields are unchanged; a lookup fault makes it fail exactly when the store was not empty, an insertion fault exactly when its step is at most `SetValueInsertions` |
| `Container.FunctionMaxima.AssignPoint` | function_maxima.h:391-412 | the steps of `set_value` on the two fields: the assigned store and its index on success, both fields unchanged on a throw, and the same exact failure conditions |
| `Container.FunctionMaxima.InsertThenUpdate` | function_maxima.h:397-411 | the insertion of the new point and then `update_maxima`: on success the store without the stale point and its index; on a throw the store without the new point and the index unchanged; the exact failure conditions for both kinds of fault |
| `Container.SetValueInsertions` | function_maxima.h:344-375 | the number of index insertions `set_value` makes, at most three |
| `Container.FunctionMaxima.Erase` | function_maxima.h:430-443 | `erase(a)` keeps the invariant and drops exactly `a`; an absent `a` changes nothing; on a throw both fields are unchanged; a lookup fault makes it fail exactly when `a` is present, an insertion fault exactly when its step is below `EraseInsertions` |
| `Container.EraseInsertions` | function_maxima.h:344-375 | the number of index insertions `erase` makes, at most two, since the erased point itself is never inserted |
| `Container.FunctionMaxima.Assign` | function_maxima.h:46-126 | after `operator=` both fields equal the source's; self-assignment changes nothing; on a throw both fields are unchanged; it fails exactly when a fault hits one of its insertions or one of its index lookups |
| `Container.Marked` | function_maxima.h:89-96 | the points collected for the index are those of the copied store that the copied index holds, in store order |
| `Container.MarkedMembers` | function_maxima.h:89-96 | a point is collected exactly when it is a point of the copied store and the copied index holds it |
| `Container.MarkedIsIndex` | function_maxima.h:89-101 | for a valid source the collected points are exactly the source's index entries, so the copy's index equals the source's |
| `Container.MarkedCount` | function_maxima.h:89-96 | in a store at rest each point is collected once when the copied index holds it, and never otherwise |
| `Container.CopyPoints` | function_maxima.h:89-107 | the first loop of `operator=` inserts every source point and collects the indexed ones; if an insertion or a lookup throws, the inserted points are erased and the store is restored |
| `Container.CopyPoint` | function_maxima.h:91-107 | one pass of the first loop inserts the point in argument order and collects it exactly when the copied index holds it; if the insertion or the lookup throws, every point inserted so far is erased and the store is the previous one |
| `Container.CopyMaxima` | function_maxima.h:98-111 | the second loop of `operator=` inserts the collected entries; if it throws, the inserted entries are erased and the index is restored |
| `Container.UndoPoints` | function_maxima.h:105-107 | erasing the inserted points gives back the previous store exactly |
| `Container.DropPrevious` | function_maxima.h:115-123 | erasing the previous points and entries leaves exactly the copied store and index |
| `Container.SetValueStates` | function_maxima.h:391-412 | the stores `set_value` passes through: the new point right after the stale one; undoing the insertion gives the old store; dropping the stale point gives the assigned store |
| `Container.UpperBoundAfterFound` | function_maxima.h:397-397 | a new point is inserted right after the stale point with the same argument |
| `Container.AddingStates` | function_maxima.h:391-412 | for a new argument the inserted point keeps the store at rest, erasing it again restores the old store, and there is no stale point |
| `Container.ReplacingStates` | function_maxima.h:391-412 | for a present argument the new point sits right after the stale one; erasing the new point restores the old store and erasing the stale one overwrites its value |
| `Container.ApplyPlan` | function_maxima.h:344-385 | the insertions (with rollback) and then the erasures of `update_maxima` turn an index of the old store into the index of the new one; it fails exactly when the fault's step is one of the planned insertions |
| `Container.InsertPlanned` | function_maxima.h:344-375 | the three guarded insertions either all succeed, or the index is restored exactly; it fails exactly when the fault's step is one of the planned insertions |
| `Container.InsertStep` | function_maxima.h:354-375 | one insertion either adds its point, or throws and erases the insertions made before it |
| `Container.Rollback` | function_maxima.h:354-375 | erasing the insertions already made restores the index exactly |
| `Container.ErasePlanned` | function_maxima.h:377-385 | the erasure phase keeps the index ordered and removes exactly the planned entries |

## Left out

- Exceptions are not modelled as control flow. A throwing allocation, copy or comparison
  inside an ordered-multiset insertion is the `Fault` parameter.
- A comparison that throws inside the store's `find` is not modelled. This covers
  `set_value` (function_maxima.h:393), `erase` (:432), `value_at` (:418) and `find`
  (:459). The first two run before anything is changed; the last two are `const`.
  The same holds for the allocation in building the point to look up or insert
  (`std::make_shared` in the `point_type` constructors, :140 and :146-147). It can throw
  in `set_value` (:392), `value_at` (:417), `erase` (:431) and `find` (:458), each time
  before anything is changed.
- The lookups and comparisons that can throw after something has changed are modelled by
  `FailLookup`:
  - `update_maxima` runs `maxima.find` (:307, :326, :336) and the value comparisons of
    `check_if_maxima` (:291, :295) before its first index insertion, whenever the store
    before the mutation is not empty. In `set_value` they
    run after the insertion at :397, and the catch at :404-405 erases the new point.
  - In `operator=` the lookup `funMax.maxima.find` (:94) runs after the insertion at :91.
    The catch at :105-107 erases the inserted points.
- Iterator identity is not modelled; points are values. Erasing through an iterator
  (`function.erase(it)`, `maxima.erase(mx_it)`) is modelled as erasing the first element
  equal to it. Two elements that are equal have the same argument and value, so the
  store and the index read the same either way, but the model does not say which copy
  was erased.
- The copy constructor is defaulted. In the source it copies the index's iterators, so
  the copy's index refers to the points of the object it was copied from, not to its own.
  The value model cannot express this aliasing. `Container.FunctionMaxima.Copy` states
  only the values the copy reads at construction.
- `std::shared_ptr` ownership in `point_type`, the destructor and memory management are
  not modelled.
- The iterator classes `iterator` and `mx_iterator` and the accessors `begin`, `end`,
  `mx_begin` and `mx_end` are not modelled separately. The ordered sequences `points`
  and `maxima` are the iteration orders they expose.
- The `O(log n)` complexity bounds and the balanced-tree representation are not
  modelled.
- The template parameters `A` and `V` are fixed to `int`, with `<` as their order.
- The text returned by `InvalidArg::what()` is not modelled; the error is the `InvalidArg`
  alternative of `Lookup`.
- The variable-length arrays of `operator=` are not modelled. Their contents are the
  sequences the loops walk: the previous points and entries, the source's points, and
  the collected entries.
