# Tabulated functions: an array engine and a linked-ring engine

A tabulated function is a finite list of points (x, y) kept in strictly
increasing x order, with at least two points. It is evaluated by linear
interpolation between neighbouring points inside [first x, last x], and is
undefined (NaN) outside. The repository stores such a list in two ways:

- `ArrayTabulatedFunction` keeps the points in an over-allocated array
  with a separate live count. Insertion and deletion shift the slots with
  `System.arraycopy`. A full array is replaced by one of twice the length.
- `LinkedListTabulatedFunction` keeps the points in a circular doubly-linked
  ring closed by a sentinel `head` that carries no point. A one-slot cache
  (`lastAccessedNode`, `lastAccessedIndex`) makes access at the same or an
  adjacent index cost one step.

The model has four modules:

- `TabulatedFunction` (`tabulated_function.dfy`) holds what the engines share.
  - The value types: `Point`, `Error`, `Result`, `Outcome`.
  - `DoubleEquals`: absolute tolerance 1e-10.
  - The engine invariant `IsTable`.
  - One specification function per operation on the abstract sequence of
    points: `AfterSetPoint`, `AfterSetX`, `AfterSetY`, `AfterDelete`,
    `AfterArrayAdd`, `AfterAddAtIndex`, `AfterLinkedAdd` and `Evaluate`.
- `TabulatedFunctionProperties` (`tabulated_properties.dfy`) proves what
  those specifications promise:
  - every successful mutation keeps the table;
  - the error cases, stated as if-and-only-if;
  - how the two insertions relate;
  - round trips such as "delete what was just inserted".
- `ArrayTabulated` (`array_tabulated_function.dfy`) is a class over
  `array<Option<Point>>`; `None` is a null slot.
- `LinkedListTabulated` (`linked_list_tabulated_function.dfy`) is a class
  over `FunctionNode` objects with ghost `Nodes`, `Contents` and `Repr`.

Every public operation of each engine is a method or function whose `ensures` ties its
result and its new `Contents` to the shared specification function, applied
to the old `Contents`. The properties of those functions then hold for both
engines. Failures are `Fail(error)` / `Err(error)` results with the state
unchanged, in place of Java exceptions.

Two properties one might expect of a tabulated function do not hold for the
code, and the model follows the code:

- Inserting an x that is within epsilon of a stored x does not always fail
  in the array engine. It compares only the first stored x that is not below
  the new one, so a new x just above a stored x is accepted.
  `AddEnginesDisagree` shows this with concrete values. `ArrayAddRejects`
  states exactly when the array engine rejects.
- "Evaluating at a stored x gives its y" holds only when the stored x values
  are at least epsilon apart (`EvaluateAtNode` requires `Separated`). Neither
  engine keeps that as an invariant, since the setters compare exactly
  (`SetPointComparesExactly`). In the array engine's result from
  `AddEnginesDisagree`, evaluating at the new x returns the neighbour's y.

## Model

| member | source | states |
|---|---|---|
| TabulatedFunction.DoubleEquals | src/functions/ArrayTabulatedFunction.java:8-11 | Two x values are equal when each lies strictly within 1e-10 of the other; the relation is symmetric (the linked engine's copy at LinkedListTabulatedFunction.java:284-286 is the same) |
| TabulatedFunction.ConstructionError | src/functions/ArrayTabulatedFunction.java:15-20 | Construction is refused exactly when leftX ≥ rightX or count < 2; InvalidCount is reported only once the range check has passed |
| TabulatedFunction.GridX | src/functions/ArrayTabulatedFunction.java:25-27 | The first abscissa is leftX and the last is rightX |
| TabulatedFunction.Grid | src/functions/ArrayTabulatedFunction.java:22-29 | The grid has count points, the first (leftX, 0) and the last (rightX, 0) |
| TabulatedFunction.GridWithValues | src/functions/ArrayTabulatedFunction.java:33-38 | One point per value: point i has the grid's x and y = values[i] |
| TabulatedFunction.Interpolate | src/functions/ArrayTabulatedFunction.java:66-71 | The line passes through both points: at a.x it gives a.y and at b.x it gives b.y |
| TabulatedFunction.AfterSetPoint | src/functions/ArrayTabulatedFunction.java:85-97 | A failure is OutOfBounds for a bad index and OrderViolation otherwise (the index is checked first); a success has a valid index and replaces only the point there |
| TabulatedFunction.AfterSetX | src/functions/ArrayTabulatedFunction.java:106-117 | The same check order; a success replaces only the x of the point at index, keeping its y |
| TabulatedFunction.AfterSetY | src/functions/ArrayTabulatedFunction.java:126-131 | Succeeds exactly for a valid index, else OutOfBounds; a success replaces only the y at index |
| TabulatedFunction.AfterDelete | src/functions/ArrayTabulatedFunction.java:133-144 | A failure is OutOfBounds for a bad index and Underflow otherwise; a success is one shorter, with the points before index in place and the later ones moved down |
| TabulatedFunction.AfterArrayAdd | src/functions/ArrayTabulatedFunction.java:146-165 | The only failure is DuplicateX; a success is one longer with p at the insertion index |
| TabulatedFunction.AfterAddAtIndex | src/functions/LinkedListTabulatedFunction.java:114-131 | A failure is OutOfBounds for an index outside [0, count] and DuplicateX otherwise; a success is one longer with p at index |
| TabulatedFunction.AfterLinkedAdd | src/functions/LinkedListTabulatedFunction.java:267-282 | The only failure is DuplicateX (the scan's index is always in range); a success is one longer with p at the insertion index |
| TabulatedFunction.InsertionIndex | src/functions/ArrayTabulatedFunction.java:147-150 | The insertion scan stops at an index k ≤ n such that every point before k has x below the new x and the point at k, if any, does not |
| TabulatedFunction.Bracket | src/functions/ArrayTabulatedFunction.java:54-57 | The evaluation scan stops at an index i < n such that every point in 1..i is below x and i is last or its successor is not below x |
| TabulatedFunction.Evaluate | src/functions/ArrayTabulatedFunction.java:49-52 | The value is undefined (None, the source's NaN) exactly when x lies outside [first x, last x] |
| TabulatedFunctionProperties.GridPoint | src/functions/ArrayTabulatedFunction.java:25-28 | The i-th grid point is leftX + i·step with step computed once as (rightX − leftX)/(n − 1), and y = 0 |
| TabulatedFunctionProperties.GridIsTable | src/functions/ArrayTabulatedFunction.java:14-30 | After the range and count checks pass, the grid has n points, strictly increasing x, first x = leftX, last x = rightX, all y = 0 |
| TabulatedFunctionProperties.GridWithValuesIsTable | src/functions/ArrayTabulatedFunction.java:33-38 | The grid with given values has one point per value, is a table, and point i has the grid's x and y = values[i] |
| TabulatedFunctionProperties.InsertionIndexUnique | src/functions/ArrayTabulatedFunction.java:147-150 | Any k with every earlier x below the new x and the k-th x not below it is the insertion index: the loop's stopping point is determined |
| TabulatedFunctionProperties.InsertionIndexSplits | src/functions/LinkedListTabulatedFunction.java:269-274 | In a strictly increasing sequence, a point's x is below the new x exactly when its index is below the insertion index |
| TabulatedFunctionProperties.BracketUnique | src/functions/LinkedListTabulatedFunction.java:198-201 | Any i satisfying the evaluation loop's exit condition is the bracket index |
| TabulatedFunctionProperties.InterpolateBetween | src/functions/ArrayTabulatedFunction.java:66-71 | For x strictly between two points, the interpolated value lies between their y values |
| TabulatedFunctionProperties.EvaluateWithinBracket | src/functions/ArrayTabulatedFunction.java:54-71 | Inside the domain, the bracket has a successor, x lies between its two points (so the interpolation's denominator is positive), and the value is defined and lies between their y values |
| TabulatedFunctionProperties.EvaluateAtScan | src/functions/LinkedListTabulatedFunction.java:198-216 | The point where the scan stops gives the evaluation's value through the endpoint-hit and interpolation rule |
| TabulatedFunctionProperties.EvaluateAtNode | src/functions/ArrayTabulatedFunction.java:59-61 | In a table whose x values are at least epsilon apart, evaluating at a stored x returns that point's y |
| TabulatedFunctionProperties.SetPointKeepsTable | src/functions/ArrayTabulatedFunction.java:85-97 | setPoint succeeds exactly when the index is valid and the new x lies strictly between the neighbours' x. On success the result is a table that differs only at index |
| TabulatedFunctionProperties.SetXKeepsTable | src/functions/ArrayTabulatedFunction.java:106-117 | setPointX succeeds exactly when the index is valid and x lies strictly between the neighbours' x; a success keeps the table and changes only the x of the point at index |
| TabulatedFunctionProperties.SetYKeepsTable | src/functions/ArrayTabulatedFunction.java:126-131 | setPointY succeeds exactly for a valid index, keeps the table and changes only that y |
| TabulatedFunctionProperties.SetPointComparesExactly | src/functions/ArrayTabulatedFunction.java:91-92 | The setter's neighbour check is exact: it accepts an x closer than epsilon to a neighbour, which linked insertion refuses |
| TabulatedFunctionProperties.DeleteKeepsTable | src/functions/ArrayTabulatedFunction.java:133-144 | Deletion succeeds exactly for a valid index and at least three points. The result is a table one shorter with the later points shifted down |
| TabulatedFunctionProperties.DeleteAtMinimumFails | src/functions/ArrayTabulatedFunction.java:134-139 | With two points every deletion fails: Underflow for a valid index, OutOfBounds otherwise (the index check comes first) |
| TabulatedFunctionProperties.InsertAtKeepsTable | src/functions/ArrayTabulatedFunction.java:162-164 | Inserting p at k between smaller and larger x gives a table one longer with p at k, earlier points in place and later points shifted up |
| TabulatedFunctionProperties.ArrayAddKeepsTable | src/functions/ArrayTabulatedFunction.java:146-165 | A successful array insertion puts p at the insertion index and keeps the table |
| TabulatedFunctionProperties.ArrayAddRejects | src/functions/ArrayTabulatedFunction.java:152-154 | The array engine refuses p, with DuplicateX, exactly when some stored x at or above p.x is epsilon-equal to it |
| TabulatedFunctionProperties.LinkedAddRejects | src/functions/LinkedListTabulatedFunction.java:267-282 | The linked engine refuses p, with DuplicateX, exactly when some stored x is epsilon-equal to it |
| TabulatedFunctionProperties.LinkedAddKeepsTable | src/functions/LinkedListTabulatedFunction.java:114-152 | A successful linked insertion puts p at the insertion index, keeps the table, and keeps x values at least epsilon apart if they were |
| TabulatedFunctionProperties.LinkedAddRefinesArrayAdd | src/functions/LinkedListTabulatedFunction.java:118-129 | Whatever the linked engine accepts, the array engine accepts with the same result. Whatever the array engine refuses, the linked engine refuses |
| TabulatedFunctionProperties.AddEnginesDisagree | src/functions/ArrayTabulatedFunction.java:152 | For table [(0,0),(1,0)] and x = 5e-11, the array engine inserts and the linked engine refuses. Evaluating the array result at the new x gives 0, not the new y |
| TabulatedFunctionProperties.LinkedAddThenEvaluate | src/functions/LinkedListTabulatedFunction.java:267-282 | After a successful linked insertion into an epsilon-separated table, evaluating at the new x returns the new y |
| TabulatedFunctionProperties.AddThenDelete | src/functions/ArrayTabulatedFunction.java:133-165 | Deleting at the insertion index after a successful insertion gives back the original table |
| TabulatedFunctionProperties.LinkedAddThenDelete | src/functions/LinkedListTabulatedFunction.java:263-282 | Deleting at the insertion index after a successful linked insertion gives back the original table |
| ArrayTabulated.ArrayCopy | src/functions/ArrayTabulatedFunction.java:162 | System.arraycopy: the destination range receives the source range as it was before the call, even when the ranges overlap in one array; every other slot is unchanged |
| ArrayTabulated.ArrayTabulatedFunction.Grid | src/functions/ArrayTabulatedFunction.java:14-30 | Past the checks, the array holds the grid points, capacity is count + 10, and the spare slots are empty |
| ArrayTabulated.ArrayTabulatedFunction.Create | src/functions/ArrayTabulatedFunction.java:14-30 | Fails with InvalidRange when leftX ≥ rightX, else with InvalidCount when count < 2. Otherwise yields a valid function holding the grid, with capacity count + 10 |
| ArrayTabulated.ArrayTabulatedFunction.CreateWithValues | src/functions/ArrayTabulatedFunction.java:33-38 | Same checks with count = number of values. Otherwise point i has the grid's x and y = values[i] |
| ArrayTabulated.ArrayTabulatedFunction.LeftDomainBorder | src/functions/ArrayTabulatedFunction.java:41-43 | The first point's x, which is no larger than any stored x |
| ArrayTabulated.ArrayTabulatedFunction.RightDomainBorder | src/functions/ArrayTabulatedFunction.java:45-47 | The last point's x, which is no smaller than any stored x |
| ArrayTabulated.ArrayTabulatedFunction.GetPointsCount | src/functions/ArrayTabulatedFunction.java:74-76 | The number of live points, always at least 2 |
| ArrayTabulated.ArrayTabulatedFunction.GetFunctionValue | src/functions/ArrayTabulatedFunction.java:49-72 | The border test, bracket scan and endpoint/interpolation rule compute exactly Evaluate of the stored points |
| ArrayTabulated.ArrayTabulatedFunction.GetPoint | src/functions/ArrayTabulatedFunction.java:78-83 | The point at a valid index, else OutOfBounds(index) |
| ArrayTabulated.ArrayTabulatedFunction.GetPointX | src/functions/ArrayTabulatedFunction.java:99-104 | The x at a valid index, else OutOfBounds(index) |
| ArrayTabulated.ArrayTabulatedFunction.GetPointY | src/functions/ArrayTabulatedFunction.java:119-124 | The y at a valid index, else OutOfBounds(index) |
| ArrayTabulated.ArrayTabulatedFunction.SetPoint | src/functions/ArrayTabulatedFunction.java:85-97 | Outcome and new points are those of AfterSetPoint on the old points (unchanged on failure); the array and count stay, and the invariant holds |
| ArrayTabulated.ArrayTabulatedFunction.SetPointX | src/functions/ArrayTabulatedFunction.java:106-117 | Outcome and new points are those of AfterSetX; unchanged on failure |
| ArrayTabulated.ArrayTabulatedFunction.SetPointY | src/functions/ArrayTabulatedFunction.java:126-131 | Outcome and new points are those of AfterSetY; unchanged on failure |
| ArrayTabulated.ArrayTabulatedFunction.DeletePoint | src/functions/ArrayTabulatedFunction.java:133-144 | Outcome and new points are those of AfterDelete, in the same array. The vacated slot is cleared, since every slot past the count is empty |
| ArrayTabulated.ArrayTabulatedFunction.AddPoint | src/functions/ArrayTabulatedFunction.java:146-165 | Outcome and new points are those of AfterArrayAdd. The array is replaced by a fresh one of twice the length exactly when an insertion happens into a full array, and is kept otherwise |
| ArrayTabulated.ArrayTabulatedFunction.Grow | src/functions/ArrayTabulatedFunction.java:156-160 | A full array is replaced by a fresh array of twice the length holding the same points |
| ArrayTabulated.ArrayTabulatedFunction.ShiftAndStore | src/functions/ArrayTabulatedFunction.java:162-164 | Shifting the tail one slot up and storing p at index turns the points into InsertAt(old, index, p), in the same array |
| LinkedListTabulated.FunctionNode.constructor | src/functions/LinkedListTabulatedFunction.java:6-16 | A new node carries the given point (None for the sentinel's null) and has no links yet |
| LinkedListTabulated.RingDistinct | src/functions/LinkedListTabulatedFunction.java:18 | The data nodes of a sentinel ring are pairwise distinct |
| LinkedListTabulated.RingElsewhere | src/functions/LinkedListTabulatedFunction.java:18 | The node at a position occurs at no other position of the ring |
| LinkedListTabulated.RingMutual | src/functions/LinkedListTabulatedFunction.java:6-16 | In a ring every node, the sentinel included, has n.next.prev == n and n.prev.next == n |
| LinkedListTabulated.CacheAfterRemove | src/functions/LinkedListTabulatedFunction.java:171-177 | After the node at index is removed, any other cached node is at its old index, or one lower if it lay beyond |
| LinkedListTabulated.Link | src/functions/LinkedListTabulatedFunction.java:141-146 | The four link stores put the new node between its neighbours. The ring then runs over the old nodes with it spliced in at index, and carries the points with its point inserted there |
| LinkedListTabulated.Unlink | src/functions/LinkedListTabulatedFunction.java:162-166 | The two link stores take the node at index out of the ring and its point out of the carried points |
| LinkedListTabulated.SetNodePoint | src/functions/LinkedListTabulatedFunction.java:237 | Storing a point in a node leaves the ring's links intact and replaces exactly the point at that node's position |
| LinkedListTabulated.LinkedListTabulatedFunction.Grid | src/functions/LinkedListTabulatedFunction.java:25-44 | Past the checks, a self-linked sentinel plus one tail append per grid point yields a valid ring holding the grid |
| LinkedListTabulated.LinkedListTabulatedFunction.AppendGrid | src/functions/LinkedListTabulatedFunction.java:38-42 | Starting from an empty ring, the loop of tail appends produces exactly the grid points, in fresh nodes |
| LinkedListTabulated.LinkedListTabulatedFunction.Create | src/functions/LinkedListTabulatedFunction.java:25-44 | Fails with InvalidRange, else InvalidCount, like the array engine. Otherwise yields a valid ring holding the grid |
| LinkedListTabulated.LinkedListTabulatedFunction.CreateWithValues | src/functions/LinkedListTabulatedFunction.java:46-53 | Same checks. The walk from head.next sets y[i] = values[i], so the ring holds the grid with the given values |
| LinkedListTabulated.LinkedListTabulatedFunction.SetValues | src/functions/LinkedListTabulatedFunction.java:48-52 | The walk from head.next gives node i the y value values[i], keeping its x, on the same ring of nodes |
| LinkedListTabulated.LinkedListTabulatedFunction.GetNodeByIndex | src/functions/LinkedListTabulatedFunction.java:57-96 | On every path (cache hit, ±1 step, forward or backward walk) it returns the node at index, and the cache then names it. A bad index gives OutOfBounds with the cache unchanged |
| LinkedListTabulated.LinkedListTabulatedFunction.StorePoint | src/functions/LinkedListTabulatedFunction.java:237 | Giving the node at index a new point changes only that entry of the points and keeps the ring well formed |
| LinkedListTabulated.LinkedListTabulatedFunction.AddNodeToTail | src/functions/LinkedListTabulatedFunction.java:98-112 | A fresh node carrying the point is appended after the last node; the ring stays well formed, and the cache is (new node, count − 1) |
| LinkedListTabulated.LinkedListTabulatedFunction.DuplicateNeighbour | src/functions/LinkedListTabulatedFunction.java:118-129 | The splice's checks report a duplicate exactly when the point before index or the point at index is epsilon-equal in x |
| LinkedListTabulated.LinkedListTabulatedFunction.LinkBefore | src/functions/LinkedListTabulatedFunction.java:138-149 | The new node is spliced in before the node at index, the points become InsertAt(old, index, p), and the cache is (new node, index) |
| LinkedListTabulated.LinkedListTabulatedFunction.AddNodeByIndex | src/functions/LinkedListTabulatedFunction.java:114-152 | The outcome is that of AfterAddAtIndex. On success the new fresh node sits at index, the points are InsertAt(old, index, p), and the cache names the new node. On failure the ring is unchanged |
| LinkedListTabulated.LinkedListTabulatedFunction.UnlinkAt | src/functions/LinkedListTabulatedFunction.java:161-168 | The node at index leaves the ring and its point leaves the points; the ring stays closed and the cache fields are not yet touched |
| LinkedListTabulated.LinkedListTabulatedFunction.ForgetDeleted | src/functions/LinkedListTabulatedFunction.java:171-177 | The cache is cleared (null, −1) if it named the deleted node, else moved down one index if it lay beyond; either way it names the right node again |
| LinkedListTabulated.LinkedListTabulatedFunction.DeleteNodeByIndex | src/functions/LinkedListTabulatedFunction.java:154-180 | Outcome is that of AfterDelete. On success the returned node was at index, the node and its point leave the ring, and the cache ends cleared: the lookup had just pointed it at the deleted node |
| LinkedListTabulated.LinkedListTabulatedFunction.LeftDomainBorder | src/functions/LinkedListTabulatedFunction.java:184-186 | head.next's x is the first point's x, no larger than any stored x |
| LinkedListTabulated.LinkedListTabulatedFunction.RightDomainBorder | src/functions/LinkedListTabulatedFunction.java:188-190 | head.prev's x is the last point's x, no smaller than any stored x |
| LinkedListTabulated.LinkedListTabulatedFunction.GetPointsCount | src/functions/LinkedListTabulatedFunction.java:219-221 | The count field is the number of ring nodes, at least 2 |
| LinkedListTabulated.LinkedListTabulatedFunction.GetFunctionValue | src/functions/LinkedListTabulatedFunction.java:192-217 | The walk never dereferences head's missing point, terminates, and the result is exactly Evaluate of the ring's points |
| LinkedListTabulated.LinkedListTabulatedFunction.GetPoint | src/functions/LinkedListTabulatedFunction.java:223-226 | The point at a valid index, else OutOfBounds(index) |
| LinkedListTabulated.LinkedListTabulatedFunction.GetPointX | src/functions/LinkedListTabulatedFunction.java:240-242 | The x at a valid index, else OutOfBounds(index) |
| LinkedListTabulated.LinkedListTabulatedFunction.GetPointY | src/functions/LinkedListTabulatedFunction.java:255-257 | The y at a valid index, else OutOfBounds(index) |
| LinkedListTabulated.LinkedListTabulatedFunction.OrderViolated | src/functions/LinkedListTabulatedFunction.java:231-232 | The setters' order test fails exactly when x ≤ the previous x or x ≥ the next x, compared exactly |
| LinkedListTabulated.LinkedListTabulatedFunction.SetPoint | src/functions/LinkedListTabulatedFunction.java:228-238 | Outcome and new points are those of AfterSetPoint; same nodes and footprint |
| LinkedListTabulated.LinkedListTabulatedFunction.SetPointX | src/functions/LinkedListTabulatedFunction.java:244-253 | Outcome and new points are those of AfterSetX; same nodes and footprint |
| LinkedListTabulated.LinkedListTabulatedFunction.SetPointY | src/functions/LinkedListTabulatedFunction.java:259-261 | Outcome and new points are those of AfterSetY; same nodes and footprint |
| LinkedListTabulated.LinkedListTabulatedFunction.DeletePoint | src/functions/LinkedListTabulatedFunction.java:263-265 | Outcome and new points are those of AfterDelete |
| LinkedListTabulated.LinkedListTabulatedFunction.AddPoint | src/functions/LinkedListTabulatedFunction.java:267-282 | The scan's own check followed by the splice's two checks give exactly the outcome and points of AfterLinkedAdd |

## Left out

- `toString` of both engines: string formatting only.
- IEEE-754 doubles are modelled as `real`. There is no rounding in `leftX + i * step`, so the last grid x equals rightX exactly. `Math.abs` is exact, and NaN is `None`.
- The `int` width of `pointsCount` and of the doubled capacity: integers are unbounded, so no overflow is modelled.
- Exception classes and message texts: each exception becomes an `Error` value, and the state is unchanged as in the source.
- `FunctionPoint` is a value, so the copies made on read and store are implicit. `setX`/`setY` on a stored point is modelled as storing a new point in the same slot or node. No aliasing of stored points is possible or modelled.
- LinkedListTabulated.LinkedListTabulatedFunction.AddNodeByIndex: the node allocated before the tail branch, and never linked, is allocated in the model too, but is left unconstrained.
- Garbage collection of unlinked nodes: the footprint `Repr` keeps them.
- The cache contents after `SetPoint`, `SetPointX`, `GetPoint` and the other lookups are not stated. Their contracts state only that the cache is coherent (it names the node at its index).
- Helper methods with no counterpart in the source keep the proofs small; each one is a contiguous part of a source method:
  - `ShiftAndStore`, `Grow` (array `addPoint`);
  - `AppendGrid`, `SetValues` (linked constructor loops);
  - `Link`, `LinkBefore`, `DuplicateNeighbour` (splicing);
  - `Unlink`, `UnlinkAt`, `ForgetDeleted` (deletion);
  - `OrderViolated`, `StorePoint`, `SetNodePoint` (setters).
- The `TabulatedFunction` interface and the demo program are not part of this model.
