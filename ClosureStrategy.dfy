/** The closure-table strategy of the tree extension, as the object the
    listener calls into during a flush: it queues new nodes at pre-persist,
    writes their closure rows at post-persist, re-parents nodes when their
    parent field changes (at once, or after the new parent is inserted),
    and recomputes the level field of the nodes whose ancestry changed. */
module ClosureStrategy {
  import opened Common
  import opened ClosureRows

  /** A tree entity: its identifier, assigned when its row is inserted, and
      its parent association. */
  class Node {
    var id: Option<nat>
    var parent: Node?

    constructor (parent: Node?)
      ensures id == None && this.parent == parent
    {
      id := None;
      this.parent := parent;
    }
  }

  /** A re-parent waiting for its new parent to be inserted. */
  datatype PendingUpdate = PendingUpdate(node: Node, oldParent: Node?)

  /** The entry for the parent field in the unit of work's change set of a
      node: the old value and the new value. */
  datatype ParentChange = ParentChange(oldParent: Node?, newParent: Node?)

  /** An association mapping of the closure entity: the field and its join
      columns. */
  datatype Association = Association(fieldName: string, joinColumnFieldNames: seq<string>)

  /** The single join column of an association (none when it has no
      column); an association with more than one is refused. */
  function GetJoinColumnFieldName(association: Association): (r: Result<Option<string>>)
    ensures r.Failure? <==> |association.joinColumnFieldNames| > 1
    ensures r.Failure? ==> r.error == RuntimeException(MoreAssociationMessage + association.fieldName)
    ensures r.Success? ==> (r.value.Some? <==> |association.joinColumnFieldNames| == 1)
    ensures r.Success? && r.value.Some? ==> r.value.value in association.joinColumnFieldNames
  {
    var columns := association.joinColumnFieldNames;
    if |columns| > 1 then
      Failure(RuntimeException(MoreAssociationMessage + association.fieldName))
    else if |columns| == 0 then
      Success(None)
    else
      Success(Some(columns[0]))
  }

  /** The join-column error is not the insert error. */
  lemma {:induction false} MessagesDiffer(fieldName: string)
    ensures MoreAssociationMessage + fieldName != InsertFailedMessage
  {
    assert (MoreAssociationMessage + fieldName)[0] != InsertFailedMessage[0];
  }

  /** Queue keyed by node identity: a node already queued keeps its place. */
  function Enqueue(q: seq<Node>, node: Node): (r: seq<Node>)
    ensures node in r && forall x :: x in q ==> x in r
    ensures forall x :: x in r ==> x in q || x == node
    ensures |r| == if node in q then |q| else |q| + 1
  {
    if node in q then q else q + [node]
  }

  /** No node occurs twice in the queue. */
  predicate NodesDistinct(q: seq<Node>)
  {
    forall i, j :: 0 <= i < j < |q| ==> q[i] != q[j]
  }

  lemma {:induction false} EnqueueKeepsDistinct(q: seq<Node>, node: Node)
    requires NodesDistinct(q)
    ensures NodesDistinct(Enqueue(q, node))
  {
  }

  /** The parked re-parents have one entry per node. */
  predicate UpdatesDistinct(q: seq<PendingUpdate>)
  {
    forall i, j :: 0 <= i < j < |q| ==> q[i].node != q[j].node
  }

  /** Parking a re-parent keyed by node identity: a node already parked
      has its entry replaced in place, any other node is appended. */
  function Park(q: seq<PendingUpdate>, u: PendingUpdate): (r: seq<PendingUpdate>)
    ensures |r| == |q| || r == q + [u]
    ensures |r| == |q| ==> exists i :: 0 <= i < |q| && q[i].node == u.node && r == q[i := u]
    ensures r == q + [u] ==> forall i :: 0 <= i < |q| ==> q[i].node != u.node
  {
    if q == [] then
      [u]
    else if q[0].node == u.node then
      [u] + q[1..]
    else
      assert q == [q[0]] + q[1..];
      [q[0]] + Park(q[1..], u)
  }

  /** Parking keeps one entry per node, holds the new entry, and loses no
      other node's entry. */
  lemma {:induction false} ParkKeepsDistinct(q: seq<PendingUpdate>, u: PendingUpdate)
    requires UpdatesDistinct(q)
    ensures UpdatesDistinct(Park(q, u))
    ensures u in Park(q, u)
    ensures forall v :: v in q && v.node != u.node ==> v in Park(q, u)
  {
    var r := Park(q, u);
    if |r| == |q| {
      var i :| 0 <= i < |q| && q[i].node == u.node && r == q[i := u];
      assert r[i] == u;
      forall v | v in q && v.node != u.node ensures v in r {
        var j :| 0 <= j < |q| && q[j] == v;
        assert r[j] == v;
      }
    } else {
      assert r[|q|] == u;
      forall v | v in q ensures v in r {
        var j :| 0 <= j < |q| && q[j] == v;
        assert r[j] == v;
      }
    }
  }

  /** The identifier of a node's parent, when it has one. */
  function ParentId(node: Node): Option<nat>
    reads node, node.parent
    requires node.parent != null ==> node.parent.id.Some?
  {
    if node.parent == null then None else Some(node.parent.id.value)
  }

  /** What the host guarantees about a session for the table to stay the
      closure table of a forest: the nodes awaiting their rows are new to
      the table and distinct, and a parked node without an old parent is a
      root the table already holds, each parked node parked once. */
  ghost predicate SessionConsistent(R: set<Row>, inserts: seq<Node>, updates: seq<PendingUpdate>)
    reads inserts
    reads set u | u in updates :: u.node
  {
    Valid(R) &&
    (forall i :: 0 <= i < |inserts| ==> inserts[i].id.Some? && inserts[i].id.value !in Nodes(R)) &&
    (forall i, j :: 0 <= i < j < |inserts| ==> inserts[i].id != inserts[j].id) &&
    (forall i :: 0 <= i < |updates| ==> updates[i].node.id.Some?) &&
    (forall i, j :: 0 <= i < j < |updates| ==> updates[i].node.id != updates[j].node.id) &&
    (forall i :: 0 <= i < |updates| && updates[i].oldParent == null ==>
       IsRoot(R, updates[i].node.id.value) && HasPair(R, updates[i].node.id.value, updates[i].node.id.value))
  }

  /** Inserting the rows of the first queued node keeps the session
      consistent for the rest of the queue, and the unique index accepts
      them. */
  lemma {:induction false} InsertKeepsSession(R: set<Row>, q: seq<Node>, updates: seq<PendingUpdate>)
    requires |q| > 0 && (q[0].parent != null ==> q[0].parent.id.Some?)
    requires SessionConsistent(R, q, updates)
    ensures Insertable(R, InsertEntries(R, q[0].id.value, ParentId(q[0])))
    ensures SessionConsistent(R + InsertEntries(R, q[0].id.value, ParentId(q[0])), q[1..], updates)
  {
    var n := q[0].id.value;
    var parent := ParentId(q[0]);
    var R' := R + InsertEntries(R, n, parent);
    InsertableIffFresh(R, n, parent);
    InsertPreservesValid(R, n, parent);
    InsertNodes(R, n, parent);
    forall i | 0 <= i < |q[1..]| ensures q[1..][i].id.Some? && q[1..][i].id.value !in Nodes(R') {
      assert q[1..][i] == q[i + 1];
      assert q[0].id != q[i + 1].id;
    }
    forall i | 0 <= i < |updates| && updates[i].oldParent == null
      ensures IsRoot(R', updates[i].node.id.value) && HasPair(R', updates[i].node.id.value, updates[i].node.id.value)
    {
      InsertKeepsRoot(R, n, parent, updates[i].node.id.value);
    }
  }

  /** The session after the first parked re-parent, given that the
      re-parent kept the table valid and every other root a root. */
  lemma {:induction false} SessionAfterReplay(R: set<Row>, R': set<Row>, updates: seq<PendingUpdate>)
    requires |updates| > 0 && SessionConsistent(R, [], updates) && Valid(R')
    requires forall m :: m != updates[0].node.id.value && IsRoot(R, m) && HasPair(R, m, m) ==> IsRoot(R', m) && HasPair(R', m, m)
    ensures SessionConsistent(R', [], updates[1..])
  {
    forall i | 0 <= i < |updates[1..]| && updates[1..][i].oldParent == null
      ensures IsRoot(R', updates[1..][i].node.id.value) && HasPair(R', updates[1..][i].node.id.value, updates[1..][i].node.id.value)
    {
      assert updates[1..][i] == updates[i + 1];
      assert updates[0].node.id != updates[i + 1].node.id;
    }
  }

  /** Replaying the first parked re-parent on a consistent session can
      only fail on a cycle, and on success keeps the session consistent
      for the remaining entries. */
  lemma {:induction false} ReplayKeepsSession(R: set<Row>, updates: seq<PendingUpdate>, parent: Option<nat>)
    requires |updates| > 0 && SessionConsistent(R, [], updates)
    ensures var result := Reparent(R, updates[0].node.id.value, parent, updates[0].oldParent != null);
            (result.Failure? ==> result.error.UnexpectedValueException?) &&
            (result.Success? ==> SessionConsistent(result.value, [], updates[1..]))
  {
    var n := updates[0].node.id.value;
    var had := updates[0].oldParent != null;
    ReparentPreservesValid(R, n, parent, had);
    var result := Reparent(R, n, parent, had);
    if result.Success? {
      ReparentKeepsRoots(R, n, parent, had);
      SessionAfterReplay(R, result.value, updates);
    }
  }

  /** The result of the level query, keyed by node: for each node of `K`
      that some row ends at, the greatest depth plus one. */
  function LevelQuery(R: set<Row>, K: set<nat>): (levels: map<nat, nat>)
    ensures forall k :: k in levels <==> k in K && LevelOf(R, k).Some?
    ensures forall k :: k in levels ==> Some(levels[k]) == LevelOf(R, k)
  {
    map k | k in K && LevelOf(R, k).Some? :: LevelOf(R, k).value
  }

  /** The queued nodes as the table sees them: each identifier with its
      parent's, in queue order. */
  ghost function QueuedNodes(q: seq<Node>): (ks: seq<NewNode>)
    reads q, set x | x in q && x.parent != null :: x.parent
    requires forall i :: 0 <= i < |q| ==> q[i].id.Some? && (q[i].parent != null ==> q[i].parent.id.Some?)
    ensures |ks| == |q|
    ensures forall i :: 0 <= i < |q| ==> ks[i] == NewNode(q[i].id.value, ParentId(q[i]))
    decreases |q|
  {
    if q == [] then [] else [NewNode(q[0].id.value, ParentId(q[0]))] + QueuedNodes(q[1..])
  }

  /** The parked re-parents as the table sees them, in list order. */
  ghost function ParkedMoves(q: seq<PendingUpdate>): (ms: seq<Move>)
    reads set u | u in q :: u.node
    reads set u | u in q && u.node.parent != null :: u.node.parent
    requires forall i :: 0 <= i < |q| ==> q[i].node.id.Some? && (q[i].node.parent != null ==> q[i].node.parent.id.Some?)
    ensures |ms| == |q|
    ensures forall i :: 0 <= i < |q| ==> ms[i] == Move(q[i].node.id.value, ParentId(q[i].node), q[i].oldParent != null)
    decreases |q|
  {
    if q == [] then [] else [Move(q[0].node.id.value, ParentId(q[0].node), q[0].oldParent != null)] + ParkedMoves(q[1..])
  }

  /** The level column after the drain: a node inserted without a parent
      has its level set to 1 at once; no other level changes. */
  function RootLevels(levels: map<nat, Option<nat>>, ks: seq<NewNode>): (r: map<nat, Option<nat>>)
    ensures forall i :: 0 <= i < |ks| && ks[i].parent.None? ==> ks[i].id in r && r[ks[i].id] == Some(1)
    ensures forall k :: k in r ==> k in levels || r[k] == Some(1)
    ensures forall k :: k in levels && (forall i :: 0 <= i < |ks| && ks[i].id == k ==> ks[i].parent.Some?) ==>
              k in r && r[k] == levels[k]
    decreases |ks|
  {
    if ks == [] then
      levels
    else
      var r := RootLevels(if ks[0].parent.None? then levels[ks[0].id := Some(1)] else levels, ks[1..]);
      assert forall i :: 1 <= i < |ks| ==> ks[i] == ks[1..][i - 1];
      r
  }

  /** The nodes the drain queues for the level pass: those inserted below
      a parent. */
  function ChildIds(ks: seq<NewNode>): (ids: set<nat>)
    ensures forall k :: k in ids <==> exists i :: 0 <= i < |ks| && ks[i].id == k && ks[i].parent.Some?
    decreases |ks|
  {
    if ks == [] then
      {}
    else
      var ids := (if ks[0].parent.Some? then {ks[0].id} else {}) + ChildIds(ks[1..]);
      assert forall i :: 1 <= i < |ks| ==> ks[i] == ks[1..][i - 1];
      assert forall i :: 0 <= i < |ks[1..]| ==> ks[1..][i] == ks[i + 1];
      ids
  }

  /** The nodes the replay queues for the level pass. */
  function MovedIds(ms: seq<Move>): set<nat>
  {
    set i | 0 <= i < |ms| :: ms[i].id
  }

  /** The drain so far, seen from its end: inserting what is left of the
      queue into the current table gives what inserting the whole queue
      into the first table gives, the rest passes the unique index exactly
      when the whole queue does, and likewise for the level column and the
      level queue (which change only when the level field is mapped). */
  ghost predicate Drained(R: set<Row>, L: map<nat, Option<nat>>, P: set<nat>, rest: seq<NewNode>,
                          R0: set<Row>, L0: map<nat, Option<nat>>, P0: set<nat>, ks: seq<NewNode>, on: bool)
  {
    InsertAll(R, rest) == InsertAll(R0, ks) &&
    (InsertAllAccepted(R, rest) <==> InsertAllAccepted(R0, ks)) &&
    (on ==> RootLevels(L, rest) == RootLevels(L0, ks) && P + ChildIds(rest) == P0 + ChildIds(ks)) &&
    (!on ==> L == L0 && P == P0)
  }

  /** One turn of the drain keeps the drain's account: a refused insert
      means the whole drain is refused, and an accepted one moves the
      account on by one node. */
  lemma DrainStep(R: set<Row>, L: map<nat, Option<nat>>, P: set<nat>, rest: seq<NewNode>,
                  R0: set<Row>, L0: map<nat, Option<nat>>, P0: set<nat>, ks: seq<NewNode>, on: bool)
    requires rest != [] && Drained(R, L, P, rest, R0, L0, P0, ks, on)
    ensures !Insertable(R, InsertEntries(R, rest[0].id, rest[0].parent)) ==> !InsertAllAccepted(R0, ks)
    ensures var k := rest[0];
            Insertable(R, InsertEntries(R, k.id, k.parent)) ==>
            Drained(R + InsertEntries(R, k.id, k.parent),
                    if on && k.parent.None? then L[k.id := Some(1)] else L,
                    if on && k.parent.Some? then P + {k.id} else P,
                    rest[1..], R0, L0, P0, ks, on)
  {
  }

  /** The replay so far, seen from its end: replaying the moves left on
      the current table ends as replaying all of them on the first table,
      and the level queue gains the same nodes. */
  ghost predicate Replayed(R: set<Row>, P: set<nat>, rest: seq<Move>, R0: set<Row>, P0: set<nat>, ms: seq<Move>, on: bool)
  {
    ReparentAll(R, rest) == ReparentAll(R0, ms) &&
    P + (if on then MovedIds(rest) else {}) == P0 + (if on then MovedIds(ms) else {})
  }

  /** One turn of the replay keeps the replay's account, or ends it with
      the move's failure. */
  lemma ReplayStep(R: set<Row>, P: set<nat>, rest: seq<Move>, R0: set<Row>, P0: set<nat>, ms: seq<Move>, on: bool)
    requires rest != [] && Replayed(R, P, rest, R0, P0, ms, on)
    ensures var r := Reparent(R, rest[0].id, rest[0].parent, rest[0].hadOldParent);
            (r.Failure? ==> ReparentAll(R0, ms) == r) &&
            (r.Success? ==> Replayed(r.value, if on then P + {rest[0].id} else P, rest[1..], R0, P0, ms, on))
  {
    assert MovedIds(rest) == {rest[0].id} + MovedIds(rest[1..]) by {
      forall x | x in MovedIds(rest) ensures x in {rest[0].id} + MovedIds(rest[1..]) {
        var j :| 0 <= j < |rest| && rest[j].id == x;
        if j > 0 {
          assert rest[1..][j - 1] == rest[j];
        }
      }
      forall x | x in MovedIds(rest[1..]) ensures x in MovedIds(rest) {
        var j :| 0 <= j < |rest[1..]| && rest[1..][j].id == x;
        assert rest[1..][j] == rest[j + 1];
      }
    }
  }

  /** The strategy for one entity manager: the closure table, the level
      column of the tree entities (by identifier; no value is SQL NULL),
      and the three pending queues. */
  class Closure {
    var rows: set<Row>
    var levels: map<nat, Option<nat>>
    var pendingChildNodeInserts: seq<Node>
    var pendingNodeUpdates: seq<PendingUpdate>
    var pendingNodesLevelProcess: set<nat>
    const hasLevelField: bool
    const ancestorAssociation: Association
    const descendantAssociation: Association

    constructor (hasLevelField: bool, ancestorAssociation: Association, descendantAssociation: Association)
      ensures rows == {} && levels == map[]
      ensures pendingChildNodeInserts == [] && pendingNodeUpdates == [] && pendingNodesLevelProcess == {}
      ensures this.hasLevelField == hasLevelField
      ensures this.ancestorAssociation == ancestorAssociation && this.descendantAssociation == descendantAssociation
    {
      rows := {};
      levels := map[];
      pendingChildNodeInserts := [];
      pendingNodeUpdates := [];
      pendingNodesLevelProcess := {};
      this.hasLevelField := hasLevelField;
      this.ancestorAssociation := ancestorAssociation;
      this.descendantAssociation := descendantAssociation;
    }

    /** Both associations of the closure entity have at most one join
        column. */
    predicate JoinColumnsSingle()
    {
      GetJoinColumnFieldName(ancestorAssociation).Success? && GetJoinColumnFieldName(descendantAssociation).Success?
    }

    /** Queues a node for its closure rows. */
    method ProcessPrePersist(node: Node)
      modifies this`pendingChildNodeInserts
      ensures pendingChildNodeInserts == Enqueue(old(pendingChildNodeInserts), node)
    {
      if node !in pendingChildNodeInserts {
        pendingChildNodeInserts := pendingChildNodeInserts + [node];
      }
    }

    /** One INSERT of a closure row: the unique index on (ancestor,
        descendant) refuses a row whose pair the table already links. */
    method InsertRow(r: Row) returns (ok: bool)
      modifies this`rows
      ensures ok <==> !HasPair(old(rows), r.ancestor, r.descendant)
      ensures rows == if ok then old(rows) + {r} else old(rows)
    {
      if HasPair(rows, r.ancestor, r.descendant) {
        return false;
      }
      rows := rows + {r};
      return true;
    }

    /** Inserts a batch of rows one at a time; the unique index on
        (ancestor, descendant) rejects a row whose pair is already stored,
        and the rows inserted before it stay. */
    method InsertRows(batch: set<Row>) returns (ok: bool)
      modifies this`rows
      ensures ok <==> Insertable(old(rows), batch)
      ensures ok ==> rows == old(rows) + batch
      ensures old(rows) <= rows <= old(rows) + batch
    {
      ghost var R0 := rows;
      var todo := batch;
      ghost var done: set<Row> := {};
      while todo != {}
        invariant todo <= batch && done == batch - todo
        invariant rows == R0 + done
        invariant Insertable(R0, done)
        decreases |todo|
      {
        var r :| r in todo;
        var inserted := InsertRow(r);
        if !inserted {
          RejectRow(R0, done, batch, r);
          return false;
        }
        AcceptRow(R0, done, r);
        done := done + {r};
        todo := todo - {r};
      }
      assert done == batch;
      return true;
    }

    /** The body of the post-persist loop for one node: the rows of the
        new node, with its level set to 1 at once when it has no parent
        and queued for the level pass when it has one. */
    method InsertNodeClosure(node: Node) returns (outcome: Outcome)
      requires node.id.Some? && (node.parent != null ==> node.parent.id.Some?)
      modifies this`rows, this`levels, this`pendingNodesLevelProcess
      ensures !JoinColumnsSingle() ==>
                outcome.Fail? && outcome.error.RuntimeException? && outcome.error != RuntimeException(InsertFailedMessage) &&
                unchanged(this)
      ensures JoinColumnsSingle() ==>
                (outcome.Pass? <==> Insertable(old(rows), InsertEntries(old(rows), node.id.value, ParentId(node))))
      ensures JoinColumnsSingle() && outcome.Fail? ==> outcome == Fail(RuntimeException(InsertFailedMessage))
      ensures JoinColumnsSingle() && outcome.Pass? ==> rows == old(rows) + InsertEntries(old(rows), node.id.value, ParentId(node))
      ensures JoinColumnsSingle() ==> old(rows) <= rows <= old(rows) + InsertEntries(old(rows), node.id.value, ParentId(node))
      ensures JoinColumnsSingle() ==>
                levels == (if hasLevelField && node.parent == null then old(levels)[node.id.value := Some(1)] else old(levels))
      ensures JoinColumnsSingle() ==>
                pendingNodesLevelProcess ==
                  (if hasLevelField && node.parent != null then old(pendingNodesLevelProcess) + {node.id.value}
                   else old(pendingNodesLevelProcess))
    {
      var ancestorColumn := GetJoinColumnFieldName(ancestorAssociation);
      if ancestorColumn.Failure? {
        MessagesDiffer(ancestorAssociation.fieldName);
        return Fail(ancestorColumn.error);
      }
      var descendantColumn := GetJoinColumnFieldName(descendantAssociation);
      if descendantColumn.Failure? {
        MessagesDiffer(descendantAssociation.fieldName);
        return Fail(descendantColumn.error);
      }
      var n := node.id.value;
      var entries := InsertEntries(rows, n, ParentId(node));
      if node.parent != null {
        if hasLevelField {
          pendingNodesLevelProcess := pendingNodesLevelProcess + {n};
        }
      } else if hasLevelField {
        levels := levels[n := Some(1)];
      }
      var ok := InsertRows(entries);
      if !ok {
        return Fail(RuntimeException(InsertFailedMessage));
      }
      return Pass;
    }

    /** Re-parents `node` below its current parent: refuses a parent inside
        its own subtree, detaches the subtree when there was an old parent,
        grafts it below the new parent, and queues the node for the level
        pass. */
    method UpdateNode(node: Node, oldParent: Node?) returns (outcome: Outcome)
      requires node.id.Some? && (node.parent != null ==> node.parent.id.Some?)
      modifies this`rows, this`pendingNodesLevelProcess
      ensures var n := node.id.value;
              var result := Reparent(old(rows), n, ParentId(node), oldParent != null);
              (outcome.Pass? <==> result.Success?) &&
              (result.Failure? ==> outcome == Fail(result.error)) &&
              (result.Success? ==> rows == result.value) &&
              (outcome.Fail? && outcome.error.UnexpectedValueException? ==> rows == old(rows)) &&
              (outcome.Fail? && outcome.error.RuntimeException? ==>
                 var R1 := Detached(old(rows), n, oldParent != null);
                 R1 <= rows <= R1 + Graft(R1, n, node.parent.id.value)) &&
              pendingNodesLevelProcess ==
                (if outcome.Pass? && hasLevelField then old(pendingNodesLevelProcess) + {n} else old(pendingNodesLevelProcess))
    {
      var n := node.id.value;
      var parentId := ParentId(node);
      if parentId.Some? && HasPair(rows, n, parentId.value) {
        return Fail(UnexpectedValueException(n));
      }
      if oldParent != null {
        rows := Detach(rows, n);
      }
      if parentId.Some? {
        var ok := InsertRows(Graft(rows, n, parentId.value));
        if !ok {
          return Fail(RuntimeException(InsertFailedMessage));
        }
      }
      if hasLevelField {
        pendingNodesLevelProcess := pendingNodesLevelProcess + {n};
      }
      return Pass;
    }

    /** Reacts to an update of `node`: only a change of the parent field
        does anything; a new parent without an identifier parks the
        re-parent until that parent is inserted, any other change runs it
        at once. */
    method ProcessScheduledUpdate(node: Node, parentChange: Option<ParentChange>) returns (outcome: Outcome)
      requires node.id.Some?
      requires parentChange.Some? ==> node.parent == parentChange.value.newParent
      modifies this`rows, this`pendingNodesLevelProcess, this`pendingNodeUpdates
      ensures parentChange.None? ==> outcome.Pass? && unchanged(this)
      ensures parentChange.Some? && node.parent != null && node.parent.id.None? ==>
                outcome.Pass? && rows == old(rows) && pendingNodesLevelProcess == old(pendingNodesLevelProcess) &&
                pendingNodeUpdates == Park(old(pendingNodeUpdates), PendingUpdate(node, parentChange.value.oldParent))
      ensures parentChange.Some? && (node.parent == null || node.parent.id.Some?) ==>
                var result := Reparent(old(rows), node.id.value, ParentId(node), parentChange.value.oldParent != null);
                pendingNodeUpdates == old(pendingNodeUpdates) &&
                (outcome.Pass? <==> result.Success?) &&
                (result.Failure? ==> outcome == Fail(result.error)) &&
                (result.Success? ==> rows == result.value) &&
                (outcome.Fail? && outcome.error.UnexpectedValueException? ==> rows == old(rows)) &&
                (outcome.Fail? && outcome.error.RuntimeException? ==>
                   var R1 := Detached(old(rows), node.id.value, parentChange.value.oldParent != null);
                   R1 <= rows <= R1 + Graft(R1, node.id.value, node.parent.id.value)) &&
                pendingNodesLevelProcess ==
                  (if outcome.Pass? && hasLevelField then old(pendingNodesLevelProcess) + {node.id.value}
                   else old(pendingNodesLevelProcess))
    {
      if parentChange.None? {
        return Pass;
      }
      var change := parentChange.value;
      if change.newParent != null && change.newParent.id.None? {
        pendingNodeUpdates := Park(pendingNodeUpdates, PendingUpdate(node, change.oldParent));
        return Pass;
      }
      outcome := UpdateNode(node, change.oldParent);
    }

    /** The first loop of the level pass: adds the strict descendants of
        every node of a snapshot of the queue. */
    method CollectDescendants()
      modifies this`pendingNodesLevelProcess
      ensures pendingNodesLevelProcess == Expand(rows, old(pendingNodesLevelProcess))
    {
      var snapshot := pendingNodesLevelProcess;
      var todo := snapshot;
      while todo != {}
        invariant todo <= snapshot
        invariant pendingNodesLevelProcess == snapshot + Expand(rows, snapshot - todo)
        decreases |todo|
      {
        var k :| k in todo;
        ExpandAdd(rows, snapshot - todo, k);
        assert snapshot - (todo - {k}) == (snapshot - todo) + {k};
        pendingNodesLevelProcess := pendingNodesLevelProcess + Children(rows, k);
        todo := todo - {k};
      }
      assert snapshot - todo == snapshot;
    }

    /** The write loop of the level pass: each queued node gets the
        aggregate's value for it, or no value when no row ends at it. */
    method WriteLevels()
      modifies this`levels
      ensures levels == old(levels) + LevelMap(rows, pendingNodesLevelProcess)
    {
      var computed := LevelQuery(rows, pendingNodesLevelProcess);
      var pending := pendingNodesLevelProcess;
      ghost var written: set<nat> := {};
      assert old(levels) + LevelMap(rows, {}) == old(levels);
      while pending != {}
        invariant pending + written == pendingNodesLevelProcess && pending !! written
        invariant levels == old(levels) + LevelMap(rows, written)
        decreases |pending|
      {
        var k :| k in pending;
        var level := if k in computed then Some(computed[k]) else None;
        LevelMapAdd(old(levels), rows, written, k);
        levels := levels[k := level];
        pending := pending - {k};
        written := written + {k};
      }
    }

    /** Recomputes the level of every queued node and of all its
        descendants as one more than the greatest depth of the rows ending
        at it, then empties the queue. */
    method SetLevelFieldOnPendingNodes()
      modifies this`pendingNodesLevelProcess, this`levels
      ensures pendingNodesLevelProcess == {}
      ensures levels == old(levels) + LevelMap(rows, Expand(rows, old(pendingNodesLevelProcess)))
    {
      if pendingNodesLevelProcess != {} {
        CollectDescendants();
        WriteLevels();
        pendingNodesLevelProcess := {};
      } else {
        assert Expand(rows, {}) == {};
        assert levels == old(levels) + LevelMap(rows, {});
      }
    }

    /** One turn of the drain loop: the first queued node, whose identifier
        and parent identifier `k` records, is shifted off the queue and its
        rows are inserted. */
    method InsertFirstQueued(ghost k: NewNode) returns (outcome: Outcome)
      requires |pendingChildNodeInserts| > 0
      requires pendingChildNodeInserts[0].id.Some?
      requires pendingChildNodeInserts[0].parent != null ==> pendingChildNodeInserts[0].parent.id.Some?
      requires k == NewNode(pendingChildNodeInserts[0].id.value, ParentId(pendingChildNodeInserts[0]))
      modifies this`rows, this`levels, this`pendingNodesLevelProcess, this`pendingChildNodeInserts
      ensures pendingChildNodeInserts == old(pendingChildNodeInserts)[1..]
      ensures !JoinColumnsSingle() ==>
                outcome.Fail? && outcome.error.RuntimeException? && outcome.error != RuntimeException(InsertFailedMessage) &&
                rows == old(rows) && levels == old(levels) && pendingNodesLevelProcess == old(pendingNodesLevelProcess)
      ensures JoinColumnsSingle() ==>
                (outcome.Pass? <==> Insertable(old(rows), InsertEntries(old(rows), k.id, k.parent)))
      ensures JoinColumnsSingle() && outcome.Fail? ==> outcome == Fail(RuntimeException(InsertFailedMessage))
      ensures outcome.Pass? ==> JoinColumnsSingle() && rows == old(rows) + InsertEntries(old(rows), k.id, k.parent)
      ensures JoinColumnsSingle() ==>
                levels == (if hasLevelField && k.parent.None? then old(levels)[k.id := Some(1)] else old(levels)) &&
                pendingNodesLevelProcess ==
                  (if hasLevelField && k.parent.Some? then old(pendingNodesLevelProcess) + {k.id}
                   else old(pendingNodesLevelProcess))
      ensures old(SessionConsistent(rows, pendingChildNodeInserts, pendingNodeUpdates)) ==>
                Valid(rows) && outcome != Fail(RuntimeException(InsertFailedMessage))
      ensures old(SessionConsistent(rows, pendingChildNodeInserts, pendingNodeUpdates)) && outcome.Pass? ==>
                SessionConsistent(rows, pendingChildNodeInserts, pendingNodeUpdates)
    {
      var node := pendingChildNodeInserts[0];
      ghost var q := pendingChildNodeInserts;
      ghost var R := rows;
      pendingChildNodeInserts := pendingChildNodeInserts[1..];
      outcome := InsertNodeClosure(node);
      ghost var consistent := old(SessionConsistent(rows, pendingChildNodeInserts, pendingNodeUpdates));
      if consistent {
        assert SessionConsistent(R, q, pendingNodeUpdates);
        InsertKeepsSession(R, q, pendingNodeUpdates);
      }
    }

    /** The drain loop of the post-persist step: the rows of every queued
        node, first in first out, until the queue is empty. */
    method DrainChildNodeInserts() returns (outcome: Outcome)
      requires forall i :: 0 <= i < |pendingChildNodeInserts| ==>
                 pendingChildNodeInserts[i].id.Some? &&
                 (pendingChildNodeInserts[i].parent != null ==> pendingChildNodeInserts[i].parent.id.Some?)
      modifies this`rows, this`levels, this`pendingNodesLevelProcess, this`pendingChildNodeInserts
      ensures outcome.Pass? ==>
                pendingChildNodeInserts == [] &&
                rows == InsertAll(old(rows), old(QueuedNodes(pendingChildNodeInserts)))
      ensures outcome.Pass? ==>
                levels == (if hasLevelField then RootLevels(old(levels), old(QueuedNodes(pendingChildNodeInserts))) else old(levels)) &&
                pendingNodesLevelProcess ==
                  old(pendingNodesLevelProcess) + (if hasLevelField then ChildIds(old(QueuedNodes(pendingChildNodeInserts))) else {})
      ensures outcome.Fail? ==> outcome.error.RuntimeException?
      ensures outcome.Pass? <==>
                (old(pendingChildNodeInserts) == [] || JoinColumnsSingle()) &&
                InsertAllAccepted(old(rows), old(QueuedNodes(pendingChildNodeInserts)))
      ensures JoinColumnsSingle() && outcome.Fail? ==> outcome == Fail(RuntimeException(InsertFailedMessage))
      ensures old(SessionConsistent(rows, pendingChildNodeInserts, pendingNodeUpdates)) ==>
                Valid(rows) && outcome != Fail(RuntimeException(InsertFailedMessage)) &&
                (outcome.Pass? <==> old(pendingChildNodeInserts) == [] || JoinColumnsSingle()) &&
                (outcome.Pass? ==> SessionConsistent(rows, [], pendingNodeUpdates))
    {
      ghost var consistent := SessionConsistent(rows, pendingChildNodeInserts, pendingNodeUpdates);
      ghost var ks := QueuedNodes(pendingChildNodeInserts);
      ghost var R0, L0, P0 := rows, levels, pendingNodesLevelProcess;
      ghost var nodes := pendingChildNodeInserts;
      ghost var j := 0;
      outcome := Pass;
      while pendingChildNodeInserts != []
        invariant 0 <= j <= |ks| == |nodes|
        invariant pendingChildNodeInserts == nodes[j..]
        invariant consistent ==> SessionConsistent(rows, pendingChildNodeInserts, pendingNodeUpdates)
        invariant Drained(rows, levels, pendingNodesLevelProcess, ks[j..], R0, L0, P0, ks, hasLevelField)
        invariant j > 0 ==> JoinColumnsSingle()
        invariant outcome == Pass
        decreases |pendingChildNodeInserts|
      {
        ghost var R, L, P := rows, levels, pendingNodesLevelProcess;
        assert ks[j..][0] == ks[j] && ks[j..][1..] == ks[j + 1..];
        DrainStep(R, L, P, ks[j..], R0, L0, P0, ks, hasLevelField);
        outcome := InsertFirstQueued(ks[j]);
        if outcome.Fail? {
          assert JoinColumnsSingle() ==> !InsertAllAccepted(R0, ks);
          assert !JoinColumnsSingle() ==> j == 0 && old(pendingChildNodeInserts) != [];
          return;
        }
        j := j + 1;
      }
      assert ks[j..] == [];
    }

    /** One turn of the replay: the re-parent of the parked entry at `i`.
        On a consistent session it can only fail on a cycle, which leaves
        the table as it was, and on success the rest of the list is still
        consistent. */
    method ReplayEntry(i: nat, ghost m: Move) returns (outcome: Outcome)
      requires i < |pendingNodeUpdates|
      requires pendingNodeUpdates[i].node.id.Some?
      requires pendingNodeUpdates[i].node.parent != null ==> pendingNodeUpdates[i].node.parent.id.Some?
      requires m == Move(pendingNodeUpdates[i].node.id.value, ParentId(pendingNodeUpdates[i].node), pendingNodeUpdates[i].oldParent != null)
      modifies this`rows, this`pendingNodesLevelProcess
      ensures var result := Reparent(old(rows), m.id, m.parent, m.hadOldParent);
              (outcome.Pass? <==> result.Success?) &&
              (result.Failure? ==> outcome == Fail(result.error)) &&
              (result.Success? ==> rows == result.value)
      ensures pendingNodesLevelProcess ==
                (if outcome.Pass? && hasLevelField then old(pendingNodesLevelProcess) + {m.id} else old(pendingNodesLevelProcess))
      ensures old(SessionConsistent(rows, [], pendingNodeUpdates[i..])) ==>
                (outcome.Fail? ==> outcome.error.UnexpectedValueException? && rows == old(rows)) &&
                (outcome.Pass? ==> SessionConsistent(rows, [], pendingNodeUpdates[i + 1..]))
    {
      var info := pendingNodeUpdates[i];
      ghost var R := rows;
      outcome := UpdateNode(info.node, info.oldParent);
      if old(SessionConsistent(rows, [], pendingNodeUpdates[i..])) {
        assert SessionConsistent(R, [], pendingNodeUpdates[i..]);
        ReplayKeepsSession(R, pendingNodeUpdates[i..], ParentId(info.node));
        assert pendingNodeUpdates[i..][1..] == pendingNodeUpdates[i + 1..];
      }
    }

    /** Replays the parked re-parents in order, then empties the list. */
    method ReplayPendingNodeUpdates() returns (outcome: Outcome)
      requires forall i :: 0 <= i < |pendingNodeUpdates| ==>
                 pendingNodeUpdates[i].node.id.Some? &&
                 (pendingNodeUpdates[i].node.parent != null ==> pendingNodeUpdates[i].node.parent.id.Some?)
      modifies this`rows, this`pendingNodesLevelProcess, this`pendingNodeUpdates
      ensures outcome.Pass? <==> ReparentAll(old(rows), old(ParkedMoves(pendingNodeUpdates))).Success?
      ensures outcome.Fail? ==> outcome == Fail(ReparentAll(old(rows), old(ParkedMoves(pendingNodeUpdates))).error)
      ensures outcome.Pass? ==> rows == ReparentAll(old(rows), old(ParkedMoves(pendingNodeUpdates))).value
      ensures outcome.Fail? ==> pendingNodeUpdates == old(pendingNodeUpdates)
      ensures outcome.Pass? ==>
                pendingNodeUpdates == [] &&
                pendingNodesLevelProcess ==
                  old(pendingNodesLevelProcess) + (if hasLevelField then MovedIds(old(ParkedMoves(pendingNodeUpdates))) else {})
      ensures old(SessionConsistent(rows, [], pendingNodeUpdates)) ==>
                Valid(rows) && (outcome.Fail? ==> outcome.error.UnexpectedValueException?)
    {
      ghost var consistent := SessionConsistent(rows, [], pendingNodeUpdates);
      ghost var ms := ParkedMoves(pendingNodeUpdates);
      ghost var R0, P0 := rows, pendingNodesLevelProcess;
      var i := 0;
      while i < |pendingNodeUpdates|
        invariant 0 <= i <= |pendingNodeUpdates| && pendingNodeUpdates == old(pendingNodeUpdates)
        invariant consistent ==> SessionConsistent(rows, [], pendingNodeUpdates[i..])
        invariant Replayed(rows, pendingNodesLevelProcess, ms[i..], R0, P0, ms, hasLevelField)
      {
        assert ms[i..][0] == ms[i] && ms[i..][1..] == ms[i + 1..];
        ReplayStep(rows, pendingNodesLevelProcess, ms[i..], R0, P0, ms, hasLevelField);
        outcome := ReplayEntry(i, ms[i]);
        if outcome.Fail? {
          return;
        }
        i := i + 1;
      }
      assert ms[i..] == [];
      pendingNodeUpdates := [];
      outcome := Pass;
    }

    /** After the insert of an entity: writes the rows of every queued
        node, replays the parked re-parents, then runs the level pass.  On
        success the table is the queue's inserts followed by the parked
        re-parents, and the level column holds level 1 for the new roots
        and the recomputed level of every node queued for the level pass
        and of its descendants.  On a consistent session the table stays
        the closure table of a forest and no row insert is refused. */
    method ProcessPostPersist() returns (outcome: Outcome)
      requires forall i :: 0 <= i < |pendingChildNodeInserts| ==>
                 pendingChildNodeInserts[i].id.Some? &&
                 (pendingChildNodeInserts[i].parent != null ==> pendingChildNodeInserts[i].parent.id.Some?)
      requires forall i :: 0 <= i < |pendingNodeUpdates| ==>
                 pendingNodeUpdates[i].node.id.Some? &&
                 (pendingNodeUpdates[i].node.parent != null ==> pendingNodeUpdates[i].node.parent.id.Some?)
      modifies this
      ensures outcome.Pass? ==> pendingChildNodeInserts == [] && pendingNodeUpdates == [] && pendingNodesLevelProcess == {}
      ensures outcome.Pass? ==>
                var result := ReparentAll(InsertAll(old(rows), old(QueuedNodes(pendingChildNodeInserts))),
                                          old(ParkedMoves(pendingNodeUpdates)));
                result.Success? && rows == result.value
      ensures outcome.Pass? ==>
                var ks := old(QueuedNodes(pendingChildNodeInserts));
                var queued := old(pendingNodesLevelProcess) +
                              (if hasLevelField then ChildIds(ks) + MovedIds(old(ParkedMoves(pendingNodeUpdates))) else {});
                levels == (if hasLevelField then RootLevels(old(levels), ks) else old(levels)) + LevelMap(rows, Expand(rows, queued))
      ensures outcome.Fail? ==>
                outcome.error.RuntimeException? || outcome.error.UnexpectedValueException?
      ensures var ks := old(QueuedNodes(pendingChildNodeInserts));
              var drained := (old(pendingChildNodeInserts) == [] || JoinColumnsSingle()) && InsertAllAccepted(old(rows), ks);
              var result := ReparentAll(InsertAll(old(rows), ks), old(ParkedMoves(pendingNodeUpdates)));
              (outcome.Pass? <==> drained && result.Success?) &&
              (drained && outcome.Fail? ==> outcome == Fail(result.error)) &&
              (JoinColumnsSingle() && !drained ==> outcome == Fail(RuntimeException(InsertFailedMessage)))
      ensures old(SessionConsistent(rows, pendingChildNodeInserts, pendingNodeUpdates)) ==>
                Valid(rows) && outcome != Fail(RuntimeException(InsertFailedMessage))
      ensures old(SessionConsistent(rows, pendingChildNodeInserts, pendingNodeUpdates)) &&
              (old(pendingChildNodeInserts) == [] || JoinColumnsSingle()) ==>
                var result := ReparentAll(InsertAll(old(rows), old(QueuedNodes(pendingChildNodeInserts))),
                                          old(ParkedMoves(pendingNodeUpdates)));
                (outcome.Pass? <==> result.Success?) && (outcome.Fail? ==> outcome == Fail(result.error))
    {
      ghost var ks := QueuedNodes(pendingChildNodeInserts);
      ghost var ms := ParkedMoves(pendingNodeUpdates);
      ghost var drained := (pendingChildNodeInserts == [] || JoinColumnsSingle()) && InsertAllAccepted(rows, ks);
      outcome := DrainChildNodeInserts();
      if outcome.Fail? {
        assert !drained && outcome.error.RuntimeException?;
        return;
      }
      assert drained;
      assert ParkedMoves(pendingNodeUpdates) == ms;
      ghost var R1, L1 := rows, levels;
      assert R1 == InsertAll(old(rows), ks);
      assert L1 == if hasLevelField then RootLevels(old(levels), ks) else old(levels);
      ghost var queued := old(pendingNodesLevelProcess) + (if hasLevelField then ChildIds(ks) + MovedIds(ms) else {});
      outcome := ReplayPendingNodeUpdates();
      if outcome.Fail? {
        ReparentAllFailures(R1, ms);
        assert outcome == Fail(ReparentAll(R1, ms).error);
        return;
      }
      assert rows == ReparentAll(R1, ms).value;
      assert pendingNodesLevelProcess == queued;
      SetLevelFieldOnPendingNodes();
      assert levels == L1 + LevelMap(rows, Expand(rows, queued));
    }

    /** After an update of an entity of a configured tree class, runs the
        level pass. */
    method ProcessPostUpdate(configured: bool)
      modifies this`pendingNodesLevelProcess, this`levels
      ensures configured ==> pendingNodesLevelProcess == {}
      ensures configured ==> levels == old(levels) + LevelMap(rows, Expand(rows, old(pendingNodesLevelProcess)))
      ensures !configured ==> unchanged(this)
    {
      if configured {
        SetLevelFieldOnPendingNodes();
      }
    }
  }
}
