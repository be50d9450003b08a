# Closure-table tree strategy and tree repository utilities

This project models two parts of the Doctrine tree extension.

- **The closure-table strategy.** A tree is stored as a closure table. The table holds one
  `(ancestor, descendant, depth)` row for every node and each of its ancestors, itself
  included at depth 0.
  - Persisting a node queues it; after the flush its closure rows are inserted.
  - Changing a node's parent detaches its subtree from the old ancestors and grafts it below
    the new parent. Making a node the child of its own descendant is refused.
  - An optional level field is recomputed as `MAX(depth) + 1` for every node whose position
    changed, and for the whole subtree below it.
- **The repository utilities.** They build the nested forest from the flat, depth-first result
  of a hierarchy query. Each record carries its level. They can also render that forest as
  nested HTML lists with caller-supplied decorators.

The files:

- `Common.dfy` holds the optional values, the exceptions and their messages, and the two
  shapes in which operations report them.
- `ClosureRows.dfy` holds the closure table as a set of rows and what the strategy's SQL
  statements do to it:
  - `InsertEntries`: the rows of a newly persisted node;
  - `Detach`: the `DELETE` of rows from outside ancestors into a moved subtree;
  - `Graft`: the `INSERT … SELECT` joining the new parent's ancestors with the subtree;
  - `Reparent`: the whole `updateNode`;
  - `LevelOf`: the `MAX(depth) + 1` query;
  - `Expand`: the level queue grown by the nodes' children.

  The table invariant `Valid` says that:
  - every pair is unique;
  - every node has its depth-0 self row, and only self rows have depth 0;
  - paths compose;
  - a node's ancestors form a chain;
  - depths have no gaps.

  The lemmas prove that every operation keeps `Valid`, and that exactly the cyclic re-parents
  are refused.
- `ClosureStrategy.dfy` holds the strategy's state as a class:
  - the table;
  - the level column of each node;
  - the queue of persisted nodes;
  - the parked parent changes;
  - the queue of nodes whose level must be recomputed.

  It has one method per event handler. Each method is proved against the functions of
  `ClosureRows`.
- `TreeBuilder.dfy` specifies the built forest. `Build` attaches each record below the last
  open record of smaller level. The lemmas show that flattening the forest in pre-order gives
  the records back, and that the stack of open records the building loop keeps always stands
  for that forest.
- `RepositoryUtils.dfy` holds:
  - the utilities class with its children index;
  - the stack-based `BuildTreeArray`, proved equal to `Build`;
  - `BuildTree` with its option defaults;
  - the recursive renderer, proved to write out its pieces with the labels in input order;
  - `ChildrenHierarchy`.

Database calls, the unit of work and the hierarchy query are not executed. Their effect on the
table is modelled by the functions above, and the hierarchy query is a function parameter.
Node identifiers are natural numbers: `None` is an identifier not yet assigned, or SQL
`NULL`.

## Model

| member | source | states |
|---|---|---|
| ClosureRows.EmptyIsValid | src/Tree/Strategy/ORM/Closure.php:144-151 | An empty closure table satisfies the invariant: unique pairs, self rows, composition, linear ancestors, gapless depths |
| ClosureRows.Acyclic | src/Tree/Strategy/ORM/Closure.php:421-431 | In a valid table, two nodes that are each other's ancestor are the same node, at depth 0 |
| ClosureRows.UniqueParent | src/Tree/Strategy/ORM/Closure.php:262-284 | In a valid table, a node has at most one depth-1 row (one parent) |
| ClosureRows.HasPair | src/Tree/Strategy/ORM/Closure.php:421-431 | Some row links the two nodes: the integrity COUNT is not zero, and the unique index rejects a new row with that pair |
| ClosureRows.Children | src/Tree/Strategy/ORM/Closure.php:333-338 | The nodes the repository's `children(node)` returns: every strict descendant, at any depth greater than 0 |
| ClosureRows.AcceptRow | src/Tree/Strategy/ORM/Closure.php:144-151 | A row whose (ancestor, descendant) pair is new can be added under the unique index |
| ClosureRows.RejectRow | src/Tree/Strategy/ORM/Closure.php:144-151 | A batch holding a row whose pair already exists cannot be inserted under the unique index |
| ClosureRows.InsertEntries | src/Tree/Strategy/ORM/Closure.php:262-284 | The rows written for a persisted node: its self row at depth 0 and, when it has a parent, one row per ancestor of the parent at that depth plus one |
| ClosureRows.InsertEntriesAre | src/Tree/Strategy/ORM/Closure.php:262-284 | The rows of a persisted node are its self row at depth 0 and, when it has a parent, one row per ancestor of the parent at that ancestor's depth plus one, and nothing else |
| ClosureRows.InsertedRow | src/Tree/Strategy/ORM/Closure.php:262-284 | Every inserted row ends at the new node and is its self row or extends a row ending at the parent |
| ClosureRows.InsertKeepsUnique | src/Tree/Strategy/ORM/Closure.php:262-300 | Inserting a fresh node's rows keeps every pair unique |
| ClosureRows.InsertKeepsReflexive | src/Tree/Strategy/ORM/Closure.php:262-300 | Inserting a fresh node's rows keeps self rows present and depth 0 only on them |
| ClosureRows.InsertComposes | src/Tree/Strategy/ORM/Closure.php:262-300 | After the insert, two chained rows still compose into a row of the table |
| ClosureRows.InsertKeepsTransitive | src/Tree/Strategy/ORM/Closure.php:262-300 | Inserting a fresh node's rows keeps the table closed under composition |
| ClosureRows.InsertKeepsLinear | src/Tree/Strategy/ORM/Closure.php:262-300 | Inserting a fresh node's rows keeps each node's ancestors in one chain |
| ClosureRows.InsertKeepsGapless | src/Tree/Strategy/ORM/Closure.php:262-300 | Inserting a fresh node's rows keeps every deeper row backed by a parent row |
| ClosureRows.InsertPreservesValid | src/Tree/Strategy/ORM/Closure.php:262-300 | Inserting the rows of a node not yet in the table keeps the table valid |
| ClosureRows.InsertableIffFresh | src/Tree/Strategy/ORM/Closure.php:296-300 | The insert passes the unique index exactly when the node is not yet in the table |
| ClosureRows.InsertNodes | src/Tree/Strategy/ORM/Closure.php:262-300 | The insert adds exactly the new node to the table's nodes |
| ClosureRows.ChildBeforeParent | src/Tree/Strategy/ORM/Closure.php:262-284 | A node persisted before its parent has rows gets only its self row, since the ancestor query finds nothing |
| ClosureRows.InsertAll | src/Tree/Strategy/ORM/Closure.php:246-300 | The post-persist drain as a fold: the rows of each queued node, inserted in queue order over the table left by the ones before |
| ClosureRows.InsertAllPreservesValid | src/Tree/Strategy/ORM/Closure.php:246-300 | Draining a batch of fresh, distinct nodes keeps the table valid, only adds rows, adds exactly the batch's nodes, and every insert of the batch passes the unique index (`InsertAllAccepted`) |
| ClosureRows.InsertAllAccepted | src/Tree/Strategy/ORM/Closure.php:246-300 | Every insert of the drain, taken in queue order over the table the earlier inserts left, passes the unique index |
| ClosureRows.FreshBatchAccepted | src/Tree/Strategy/ORM/Closure.php:246-300 | Distinct new nodes inserted one after the other into a valid table each pass the unique index (`InsertAllAccepted`) |
| ClosureRows.DetachRow | src/Tree/Strategy/ORM/Closure.php:433-446 | A row survives the delete exactly when it does not join an ancestor outside the moved subtree to a node inside it |
| ClosureRows.Detach | src/Tree/Strategy/ORM/Closure.php:433-446 | The DELETE of a re-parent: every row c2 with some row c1 from the node to the same descendant at a smaller depth |
| ClosureRows.DetachExactly | src/Tree/Strategy/ORM/Closure.php:433-446 | The delete removes only rows; rows from outside ancestors into the subtree go, while rows inside the subtree and rows not ending in it stay |
| ClosureRows.DetachRootNoop | src/Tree/Strategy/ORM/Closure.php:433-446 | Detaching a root deletes nothing |
| ClosureRows.DetachKeepsReflexive | src/Tree/Strategy/ORM/Closure.php:433-446 | The delete keeps self rows, depth 0 only on them, and unique pairs |
| ClosureRows.DetachKeepsTransitive | src/Tree/Strategy/ORM/Closure.php:433-446 | The delete keeps the table closed under composition |
| ClosureRows.DetachKeepsLinear | src/Tree/Strategy/ORM/Closure.php:433-446 | The delete keeps each node's ancestors in one chain |
| ClosureRows.DetachKeepsGapless | src/Tree/Strategy/ORM/Closure.php:433-446 | The delete keeps depths gapless and leaves the moved node a root |
| ClosureRows.DetachPreservesValid | src/Tree/Strategy/ORM/Closure.php:433-446 | The delete keeps the table valid and leaves the moved node a root |
| ClosureRows.DetachKeepsSelf | src/Tree/Strategy/ORM/Closure.php:433-446 | The delete never removes a self row |
| ClosureRows.Detached | src/Tree/Strategy/ORM/Closure.php:433-446 | The DELETE runs only when the node had an old parent; otherwise the table is unchanged |
| ClosureRows.Graft | src/Tree/Strategy/ORM/Closure.php:448-463 | The INSERT … SELECT of a re-parent: each row ending at the new parent joined with each row starting at the node, at the summed depth plus one |
| ClosureRows.GraftedRow | src/Tree/Strategy/ORM/Closure.php:451-456 | Every grafted row joins a row ending at the new parent with a row starting at the node, at the summed depth plus one |
| ClosureRows.GraftHas | src/Tree/Strategy/ORM/Closure.php:451-456 | Every such pair of rows yields a grafted row |
| ClosureRows.ParentSideOutside | src/Tree/Strategy/ORM/Closure.php:421-431 | When the parent is not in the node's subtree, none of the parent's ancestors are either |
| ClosureRows.InsideRow | src/Tree/Strategy/ORM/Closure.php:433-446 | In a tree rooted at the node, a row ending in the subtree lies on the path from the node |
| ClosureRows.GraftInsertable | src/Tree/Strategy/ORM/Closure.php:448-463 | Grafting a detached subtree below a parent outside it passes the unique index |
| ClosureRows.GraftKeepsReflexive | src/Tree/Strategy/ORM/Closure.php:448-463 | The graft keeps self rows, depth 0 only on them, and unique pairs |
| ClosureRows.ComposeIntoGraft | src/Tree/Strategy/ORM/Closure.php:451-456 | A table row followed by a grafted row composes into a grafted row |
| ClosureRows.ComposeOutOfGraft | src/Tree/Strategy/ORM/Closure.php:451-456 | A grafted row followed by a table row composes into a grafted row |
| ClosureRows.GraftComposes | src/Tree/Strategy/ORM/Closure.php:448-463 | After the graft, two chained rows compose into a row of the table |
| ClosureRows.GraftKeepsTransitive | src/Tree/Strategy/ORM/Closure.php:448-463 | The graft keeps the table closed under composition |
| ClosureRows.SpanIntoGraft | src/Tree/Strategy/ORM/Closure.php:451-456 | The segment between a table row and a deeper grafted row to the same node is a grafted row |
| ClosureRows.SpanWithinGraft | src/Tree/Strategy/ORM/Closure.php:451-456 | The segment between two grafted rows to the same node is already in the table |
| ClosureRows.GraftRowIsDeep | src/Tree/Strategy/ORM/Closure.php:451-456 | A grafted row is deeper than every existing row to the same node |
| ClosureRows.GraftSpans | src/Tree/Strategy/ORM/Closure.php:448-463 | After the graft, the ancestors of a node still form one chain of segments |
| ClosureRows.GraftKeepsLinear | src/Tree/Strategy/ORM/Closure.php:448-463 | The graft keeps each node's ancestors in one chain |
| ClosureRows.GraftKeepsGapless | src/Tree/Strategy/ORM/Closure.php:448-463 | The graft keeps depths gapless |
| ClosureRows.GraftPreservesValid | src/Tree/Strategy/ORM/Closure.php:448-463 | Grafting a root subtree below a node outside it passes the unique index and keeps the table valid |
| ClosureRows.ReparentGraft | src/Tree/Strategy/ORM/Closure.php:448-463 | Grafting into the detached table keeps it valid and makes the parent the node's depth-1 ancestor |
| ClosureRows.ReparentDetach | src/Tree/Strategy/ORM/Closure.php:433-446 | Detaching when there was an old parent leaves a valid table, in which the node is a root and rows inside the subtree are kept |
| ClosureRows.ReparentPreservesValid | src/Tree/Strategy/ORM/Closure.php:410-468 | A parent change fails exactly when the new parent is in the node's subtree, with UnexpectedValueException; otherwise the table stays valid, the subtree's own rows and unrelated rows are kept, a null parent leaves a root, and a parent becomes the node's depth-1 ancestor |
| ClosureRows.Reparent | src/Tree/Strategy/ORM/Closure.php:410-468 | `updateNode` on the table: the cycle check first, failing with UnexpectedValueException; then the DELETE when there was an old parent; then the graft when there is a new parent, failing with RuntimeException when the unique index rejects a row |
| ClosureRows.ReparentAll | src/Tree/Strategy/ORM/Closure.php:303-310 | The replay of parked updates as a fold: each update in list order on the table left by the ones before, stopping at the first failure |
| ClosureRows.ReparentAllPreservesValid | src/Tree/Strategy/ORM/Closure.php:303-310 | Replaying distinct parked updates whose recorded roots are roots fails only with UnexpectedValueException and otherwise leaves a valid table |
| ClosureRows.ReparentAllFailures | src/Tree/Strategy/ORM/Closure.php:303-310 | On any table, a failed replay fails either by a cycle (UnexpectedValueException) or by a refused insert (RuntimeException "Failed to insert new Closure record"), never otherwise |
| ClosureRows.CycleRejected | src/Tree/Strategy/ORM/Closure.php:421-431 | Setting a parent is refused exactly when that parent is the node itself or one of its descendants |
| ClosureRows.MaxOf | src/Tree/Strategy/ORM/Closure.php:345-348 | A non-empty set of depths has a largest element |
| ClosureRows.LevelOf | src/Tree/Strategy/ORM/Closure.php:345-356 | A node's level is absent exactly when no row ends at it; otherwise it is one more than the largest depth of a row ending at it |
| ClosureRows.LevelIs | src/Tree/Strategy/ORM/Closure.php:345-356 | A row at the largest depth to a node fixes its level |
| ClosureRows.LevelIsDepthBelowRoot | src/Tree/Strategy/ORM/Closure.php:345-356 | In a valid table a node's level is one more than its depth below its root |
| ClosureRows.RootInsertLevel | src/Tree/Strategy/ORM/Closure.php:289-294 | The level 1 written for a persisted root agrees with the level query |
| ClosureRows.ChildInsertLevel | src/Tree/Strategy/ORM/Closure.php:262-288 | A persisted child's level is its parent's level plus one |
| ClosureRows.InsertKeepsOtherLevels | src/Tree/Strategy/ORM/Closure.php:262-300 | Inserting a node's rows changes no other node's level |
| ClosureRows.InsertedLevel | src/Tree/Strategy/ORM/Closure.php:262-300 | After an insert: a root's level is 1, a child's level is its parent's plus one, and other levels are unchanged |
| ClosureRows.LevelMapAdd | src/Tree/Strategy/ORM/Closure.php:360-374 | Writing one more node's level extends the written map by exactly that node |
| ClosureRows.LevelMap | src/Tree/Strategy/ORM/Closure.php:341-372 | The level column written by the level pass: each pending node mapped to its level query result, null when the query returns no row for it |
| ClosureRows.Expand | src/Tree/Strategy/ORM/Closure.php:333-339 | The expanded level queue holds the queued nodes and every child of a queued node |
| ClosureRows.ExpandAdd | src/Tree/Strategy/ORM/Closure.php:333-339 | Queueing one more node adds that node and its children |
| ClosureRows.ExpandCovers | src/Tree/Strategy/ORM/Closure.php:333-339 | In a valid table, one expansion pass holds the whole subtree of each queued node, and a second pass adds nothing |
| ClosureRows.ChainOfThree | src/Tree/Strategy/ORM/Closure.php:262-300 | Persisting a root, its child and a grandchild gives exactly the six expected rows |
| ClosureRows.InsertKeepsRoot | src/Tree/Strategy/ORM/Closure.php:262-300 | Inserting another node keeps an existing root a root |
| ClosureRows.ReparentKeepsRoot | src/Tree/Strategy/ORM/Closure.php:410-468 | Re-parenting a node keeps every other root a root with its self row |
| ClosureRows.ReparentKeepsRoots | src/Tree/Strategy/ORM/Closure.php:410-468 | The same for all other roots at once |
| ClosureStrategy.GetJoinColumnFieldName | src/Tree/Strategy/ORM/Closure.php:208-215 | More than one join column raises RuntimeException naming the field; otherwise the result is the single column, or nothing when there is none |
| ClosureStrategy.MessagesDiffer | src/Tree/Strategy/ORM/Closure.php:208-215 | The join-column message is never the insert-failure message |
| ClosureStrategy.ParentId | src/Tree/Strategy/ORM/Closure.php:449-450 | The identifier of the node's parent, or nothing when the parent is null |
| ClosureStrategy.QueuedNodes | src/Tree/Strategy/ORM/Closure.php:246-252 | The queued nodes as the drain reads them: each node's identifier with its parent's, in queue order |
| ClosureStrategy.ParkedMoves | src/Tree/Strategy/ORM/Closure.php:303-305 | The parked updates as the replay reads them: each node's identifier, its new parent's, and whether it had an old parent, in list order |
| ClosureStrategy.RootLevels | src/Tree/Strategy/ORM/Closure.php:286-294 | With the level field, every queued root gets level 1, queued children keep their levels, and other nodes are unchanged |
| ClosureStrategy.ChildIds | src/Tree/Strategy/ORM/Closure.php:286-288 | A node joins the level queue in the drain exactly when it was queued with a parent |
| ClosureStrategy.Enqueue | src/Tree/Strategy/ORM/Closure.php:175-178 | Queueing a node by object identity keeps the queued nodes and adds the node once |
| ClosureStrategy.EnqueueKeepsDistinct | src/Tree/Strategy/ORM/Closure.php:175-178 | The persisted-node queue never holds a node twice |
| ClosureStrategy.Park | src/Tree/Strategy/ORM/Closure.php:393-397 | Parking an update replaces that node's earlier entry in place, or appends it when there is none |
| ClosureStrategy.ParkKeepsDistinct | src/Tree/Strategy/ORM/Closure.php:393-397 | Parked updates stay one per node, and the latest update and the other nodes' entries are kept |
| ClosureStrategy.InsertKeepsSession | src/Tree/Strategy/ORM/Closure.php:246-301 | Inserting the first queued node passes the unique index and keeps the table consistent with the remaining queues |
| ClosureStrategy.SessionAfterReplay | src/Tree/Strategy/ORM/Closure.php:303-310 | After one parked update, the remaining updates still fit the new table |
| ClosureStrategy.ReplayKeepsSession | src/Tree/Strategy/ORM/Closure.php:303-310 | Replaying a parked update fails only with UnexpectedValueException, and on success keeps the rest consistent |
| ClosureStrategy.LevelQuery | src/Tree/Strategy/ORM/Closure.php:345-356 | The level query returns a level for exactly the queued nodes that have rows, and it is their MAX(depth) + 1 |
| ClosureStrategy.Closure.constructor | src/Tree/Strategy/ORM/Closure.php:35-58 | A new strategy has an empty table and empty queues |
| ClosureStrategy.Closure.ProcessPrePersist | src/Tree/Strategy/ORM/Closure.php:175-178 | The persisted node is queued, keyed by identity |
| ClosureStrategy.Closure.InsertRows | src/Tree/Strategy/ORM/Closure.php:296-300 | The batch is inserted exactly when no row repeats an existing pair; a failure keeps the rows inserted before it |
| ClosureStrategy.Closure.InsertRow | src/Tree/Strategy/ORM/Closure.php:297-299 | One row is stored exactly when the unique index holds no row with its (ancestor, descendant) pair; otherwise the table is left as it was |
| ClosureStrategy.Closure.InsertNodeClosure | src/Tree/Strategy/ORM/Closure.php:247-300 | A bad join-column mapping fails with nothing changed; otherwise the node's rows are inserted exactly when it is new to the table; a root gets level 1, and a child is queued for level processing |
| ClosureStrategy.Closure.UpdateNode | src/Tree/Strategy/ORM/Closure.php:410-468 | The table becomes `Reparent` of the old table; a cycle fails with the table unchanged, and a passing update queues the node for level processing |
| ClosureStrategy.Closure.ProcessScheduledUpdate | src/Tree/Strategy/ORM/Closure.php:381-402 | No parent change does nothing; a new parent without an identifier parks the update and leaves the table and the level queue as they were; otherwise the table becomes `Reparent` of the old table (failing exactly as it fails), a cycle leaves the table as it was, a refused insert leaves it between the detached table and the detached table plus the graft, the parked updates are kept, and the node joins the level queue exactly when the update passes and the level field is configured |
| ClosureStrategy.Closure.CollectDescendants | src/Tree/Strategy/ORM/Closure.php:333-339 | The level queue grows by the children of every queued node |
| ClosureStrategy.Closure.WriteLevels | src/Tree/Strategy/ORM/Closure.php:341-372 | Every queued node's level becomes its MAX(depth) + 1, or null when the query returns no row for it, and the other levels are kept |
| ClosureStrategy.Closure.SetLevelFieldOnPendingNodes | src/Tree/Strategy/ORM/Closure.php:319-376 | Levels are rewritten for the queued nodes and their children, then the queue is emptied |
| ClosureStrategy.Closure.DrainChildNodeInserts | src/Tree/Strategy/ORM/Closure.php:246-301 | On success the queue is empty and the table is `InsertAll` of the old table and the queued nodes, first in first out; with the level field the roots get level 1 and the children join the level queue, and without it levels and queue are unchanged; it passes exactly when the queue is empty or the join columns are single and every insert passes the unique index (`InsertAllAccepted`), and any failure is a RuntimeException, the insert message when the join columns are single; on a consistent session it passes exactly when the queue is empty or the join columns are single, and the table stays valid |
| ClosureStrategy.Closure.InsertFirstQueued | src/Tree/Strategy/ORM/Closure.php:246-300 | The first queued node is shifted off the queue; when it passes, the table gains exactly `InsertEntries` of that node and its parent; with the level field a root gets level 1 and a child joins the level queue, and nothing else changes; with single join columns it passes exactly when those rows pass the unique index, failing otherwise with RuntimeException "Failed to insert new Closure record"; with other join columns it fails with a different RuntimeException and leaves table, levels and level queue unchanged; on a consistent session the table stays valid, the insert message never occurs, and a pass keeps the session consistent |
| ClosureStrategy.Closure.ReplayEntry | src/Tree/Strategy/ORM/Closure.php:303-308 | One parked update replayed: the table becomes `Reparent` of the old one, failing exactly as it fails; a passing update queues the node for levels; on a consistent session it fails only by a cycle, with the table unchanged, and keeps the rest consistent |
| ClosureStrategy.Closure.ReplayPendingNodeUpdates | src/Tree/Strategy/ORM/Closure.php:303-310 | The replay passes exactly when `ReparentAll` of the parked updates, in order, succeeds, fails with that fold's error, and on success leaves its table, clears the parked updates and queues every moved node for levels when the level field is configured; on failure the parked updates are kept; on a consistent session it fails only by a cycle and the table stays valid |
| ClosureStrategy.Closure.ProcessPostPersist | src/Tree/Strategy/ORM/Closure.php:241-314 | On success all three queues are empty, the table is the parked updates replayed (`ReparentAll`) over the queued nodes inserted (`InsertAll`), and the levels are the roots' level 1 plus `MAX(depth) + 1` for every queued, inserted child and moved node and their subtrees; it passes exactly when the drain passes (queue empty or join columns single, every insert accepted) and the replay fold over the drained table succeeds, fails with that fold's error once the drain passed, fails with the insert message when single join columns meet a refused insert, and fails only with RuntimeException or UnexpectedValueException; on a consistent session the table stays valid, the insert message never occurs, and with the queue empty or single join columns the outcome is exactly the fold's |
| ClosureStrategy.Closure.ProcessPostUpdate | src/Tree/Strategy/ORM/Closure.php:220-229 | With a tree configuration the pending levels are written and the queue is emptied; otherwise nothing changes |
| TreeBuilder.StripRecord | src/Tree/RepositoryUtils.php:143-144 | The record keeps its level and every other column, without the children entry |
| TreeBuilder.Strip | src/Tree/RepositoryUtils.php:142-144 | Each record of the list is stripped, in order |
| TreeBuilder.Attach | src/Tree/RepositoryUtils.php:146-163 | A record goes below the last root when that root has a smaller level, recursively down the rightmost path, and otherwise becomes a new last root |
| TreeBuilder.Build | src/Tree/RepositoryUtils.php:142-164 | The forest of a record list: the records attached one after the other, in input order |
| TreeBuilder.PreOrder | src/Tree/RepositoryUtils.php:132-168 | The records of a forest, each before its children and the roots in order |
| TreeBuilder.PreOrderAttach | src/Tree/RepositoryUtils.php:146-163 | Attaching a record appends it to the forest's pre-order |
| TreeBuilder.BuildRoundTrip | src/Tree/RepositoryUtils.php:132-168 | Flattening the built forest in pre-order gives the input records back, in order |
| TreeBuilder.AttachKeepsLevelsIncreasing | src/Tree/RepositoryUtils.php:146-163 | Attaching keeps every child deeper than its parent, and keeps the existing roots |
| TreeBuilder.BuildLevelsIncrease | src/Tree/RepositoryUtils.php:132-168 | In the built forest every child has a greater level than its parent |
| TreeBuilder.PopInto | src/Tree/RepositoryUtils.php:148-151 | Popping makes the top of the stack the last child of the record below it |
| TreeBuilder.PopKeepsClose | src/Tree/RepositoryUtils.php:148-151 | Popping the stack does not change the forest it stands for |
| TreeBuilder.PopStep | src/Tree/RepositoryUtils.php:148-151 | One pop of a record at least as deep as the incoming one keeps the forest, keeps the stack increasing, and leaves the popped record as a child at least that deep |
| TreeBuilder.PushAttaches | src/Tree/RepositoryUtils.php:158-163 | Pushing a deeper record onto the stack attaches it below the stack's subtree |
| TreeBuilder.PushAttachesForest | src/Tree/RepositoryUtils.php:158-163 | The same in the forest that the closed roots and the stack stand for |
| TreeBuilder.PushStep | src/Tree/RepositoryUtils.php:152-163 | After popping, pushing the record, either as a new root or as a child, is attaching it, and the stack stays increasing |
| TreeBuilder.BuildNext | src/Tree/RepositoryUtils.php:142-164 | The forest of the first n+1 records is the forest of the first n with record n attached |
| TreeBuilder.EqualLevelsAreSiblings | src/Tree/RepositoryUtils.php:146-157 | Two records of equal level become two roots |
| TreeBuilder.LevelJumpAttaches | src/Tree/RepositoryUtils.php:146-163 | A record several levels deeper is still the child of the one before it, and a shallower one closes it |
| RepositoryUtils.RepresentationField | src/Tree/RepositoryUtils.php:87-95 | The default decorator shows `title`, else `name`, and without either raises InvalidArgumentException |
| RepositoryUtils.FieldLabel | src/Tree/RepositoryUtils.php:87-98 | The default decorator shows the chosen column of the node's record, or the empty string when the record has no such column |
| RepositoryUtils.Merge | src/Tree/RepositoryUtils.php:81-100 | The options are merged over the defaults `<ul>`, `</ul>`, `<li>`, `</li>` and the default decorator |
| RepositoryUtils.Render | src/Tree/RepositoryUtils.php:112-124 | A list renders as its root opening, its nodes and its root closing |
| RepositoryUtils.RenderItems | src/Tree/RepositoryUtils.php:114-121 | Each node renders as its opening, its label, its children's rendering when it has children, and its closing, in order |
| RepositoryUtils.ConcatItem | src/Tree/RepositoryUtils.php:115-120 | One node renders as its opening, its label, its children's rendering and its closing |
| RepositoryUtils.CountsItem | src/Tree/RepositoryUtils.php:115-120 | One node contributes its own label before its children's labels, one opening and one closing |
| RepositoryUtils.RenderIsPieces | src/Tree/RepositoryUtils.php:112-124 | The renderer writes out the list's pieces one after the other: the root opening, each node, the root closing |
| RepositoryUtils.RenderItemsArePieces | src/Tree/RepositoryUtils.php:114-121 | The nodes of a list render as their pieces in order |
| RepositoryUtils.PiecesFollowPreOrder | src/Tree/RepositoryUtils.php:112-124 | The labels of the rendering come in pre-order, and each node is opened and closed exactly once |
| RepositoryUtils.ItemPiecesFollowPreOrder | src/Tree/RepositoryUtils.php:114-121 | The same for the nodes of one list |
| RepositoryUtils.RenderedInInputOrder | src/Tree/RepositoryUtils.php:76-127 | Rendering the forest built from a record list shows the records' labels in the list's order, with one opening and one closing per record |
| RepositoryUtils.BuildTreeOutput | src/Tree/RepositoryUtils.php:81-127 | Without decoration the result is the nested forest; an empty forest renders as the empty string; only the default decorator, with neither field, fails |
| RepositoryUtils.PopClosed | src/Tree/RepositoryUtils.php:146-151 | Popping the records of at least the incoming level leaves the forest unchanged and the new top shallower than the record |
| RepositoryUtils.PopOne | src/Tree/RepositoryUtils.php:146-151 | One pop of a record at least as deep as the incoming one keeps the forest the stack stands for and the popping state, and shortens the stack by one |
| RepositoryUtils.PlaceRecord | src/Tree/RepositoryUtils.php:142-163 | Popping and then pushing one record is attaching it to the forest the stack stands for, and the loop state is kept |
| RepositoryUtils.RepositoryUtils.constructor | src/Tree/RepositoryUtils.php:31 | The children index starts as `__children` |
| RepositoryUtils.RepositoryUtils.SetChildrenIndex | src/Tree/RepositoryUtils.php:173-176 | The children index becomes the given key and is what the getter returns |
| RepositoryUtils.RepositoryUtils.GetChildrenIndex | src/Tree/RepositoryUtils.php:181-184 | The getter returns the current children index |
| RepositoryUtils.RepositoryUtils.BuildTreeArray | src/Tree/RepositoryUtils.php:132-168 | The stack loop returns exactly the forest `Build` of the stripped records, so its pre-order is the input |
| RepositoryUtils.RepositoryUtils.BuildTree | src/Tree/RepositoryUtils.php:76-127 | The result is `BuildTreeOutput` of the built forest with the options merged over the defaults |
| RepositoryUtils.RepositoryUtils.ChildrenHierarchy | src/Tree/RepositoryUtils.php:49-71 | A tree entity without an identifier raises InvalidArgumentException; otherwise the query's records, with the roots included when there is no node, are built into a tree |

## Left out

- Metadata loading (`processMetadataLoad`) is left out, except for the unique index on (ancestor, descendant). That index is what makes an insert fail in `InsertRows`. The mapping of the closure class and the depth index are configuration, not behaviour.
- The queries run against the database.
  - A SELECT of the closure rows is the corresponding function over the table.
  - A failed connection, and any insert failure other than the unique index, are not modelled.
  - The transaction that would roll back a partially inserted batch belongs to the host, so `InsertRows` keeps the rows inserted before a failure.
- The "Failed to remove old closures" exception of `updateNode` is not modelled: the delete always succeeds. The query call returns a result object, not a boolean.
- The unit-of-work bookkeeping is not modelled:
  - the extra updates scheduled for the level column;
  - the original values it records;
  - `getEntityChangeSet`, which becomes the `parentChange` argument.

  The model keeps the level values in the `levels` map.
- The persisted-node queue is keyed by entity manager in the source (`processPrePersist` and `processPostPersist`). The model keeps the queue of one entity manager. The parked updates are keyed by node and the level queue by identifier, as in the source.
- `children()` of the closure repository, called without `direct`, returns every strict descendant of a node, at any depth (`Children`). The repository itself is not part of this model.
- Identifiers are non-negative integers. An identifier the host has not assigned is `None`. An identifier 0, which PHP treats as false, is not modelled.
- The host's guarantees are preconditions: persisted nodes, and the parents of queued nodes, have identifiers at post-persist. That the caller's `oldParent` agrees with the table is part of the session consistency under which validity is proved, not a precondition.
- A child persisted before its parent has rows gets only its self row and so becomes a root of the table (`ChildBeforeParent`); the model keeps that outcome of the source rather than excluding it.
- ClosureStrategy.Closure.ProcessPostPersist: on a failure the table left behind is not stated, since the source aborts the flush with the exception. The same holds for `DrainChildNodeInserts`: it states when it fails and with which exception, but not the rows inserted before the failing node.
- ClosureStrategy.Closure.InsertRows: any refused insert, a unique-index rejection included, is reported as the source's RuntimeException "Failed to insert new Closure record". In the source a rejected row makes the connection layer raise its own exception instead; the model does not tell the two apart.
- The references (`&`) that `buildTreeArray` keeps on its stack are modelled as a stack of open frames, each holding its record and the children placed so far. Closing a frame places it in the frame below. No aliasing is modelled.
- A children index equal to the level column's name is not modelled. The level is kept apart from the other columns.
- Decorator callbacks are total functions. A non-string, non-callable option, and an exception thrown by a caller's callback, are not modelled.
- A record that lacks the representation field renders as the empty string, which is what PHP's null becomes in a string.
- The options passed through to `getNodesHierarchy` are modelled only as an argument of the query function. The query, `AbstractTreeRepository`, is not part of this model.
- `hasValidIdentifier` of the entity wrapper is modelled as "the identifier is present". The wrapper is not part of this model.
- The other files of the repository are not part of this model: the nested-set and materialized-path strategies, the mapping drivers, the soft-deleteable filter and the tests of the other extensions.
