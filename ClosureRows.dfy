/** The closure table of the closure-tree strategy, as a set of rows, and
    the meaning of every statement the strategy issues against it.

    A row (a, d, k) says that node `a` is an ancestor of node `d` at
    `k` parent steps; every node has its reflexive row (n, n, 0). */
module ClosureRows {
  import opened Common

  datatype Row = Row(ancestor: nat, descendant: nat, depth: nat)

  // ---------------------------------------------------------------------
  // Queries
  // ---------------------------------------------------------------------

  /** Some row links `a` to `d`: the integrity query's COUNT is not zero,
      and the unique index on (ancestor, descendant) rejects a new row. */
  predicate HasPair(R: set<Row>, a: nat, d: nat)
  {
    exists r :: r in R && r.ancestor == a && r.descendant == d
  }

  /** Every node some row mentions. */
  ghost function Nodes(R: set<Row>): set<nat>
  {
    (set r | r in R :: r.ancestor) + (set r | r in R :: r.descendant)
  }

  /** The subtree of `n`, `n` included: the descendants of its rows. */
  function Subtree(R: set<Row>, n: nat): set<nat>
  {
    set r | r in R && r.ancestor == n :: r.descendant
  }

  /** The repository's `children(node)` without `direct`: every strict
      descendant of `n`. */
  function Children(R: set<Row>, n: nat): set<nat>
  {
    set r | r in R && r.ancestor == n && r.depth > 0 :: r.descendant
  }

  /** `n` has no strict ancestor. */
  ghost predicate IsRoot(R: set<Row>, n: nat)
  {
    forall r :: r in R && r.descendant == n ==> r.depth == 0
  }

  // ---------------------------------------------------------------------
  // The table invariant
  // ---------------------------------------------------------------------

  /** The unique index on (ancestor, descendant). */
  ghost predicate PairsUnique(R: set<Row>)
  {
    forall r, s :: r in R && s in R && r.ancestor == s.ancestor && r.descendant == s.descendant ==> r.depth == s.depth
  }

  /** Every node mentioned by a row has its own reflexive row. */
  ghost predicate Reflexive(R: set<Row>)
  {
    forall r :: r in R ==> Row(r.ancestor, r.ancestor, 0) in R && Row(r.descendant, r.descendant, 0) in R
  }

  /** Depth zero exactly on the reflexive rows. */
  ghost predicate ZeroOnlySelf(R: set<Row>)
  {
    forall r :: r in R ==> (r.depth == 0 <==> r.ancestor == r.descendant)
  }

  /** The row that follows `r` and then `s`. */
  function Compose(r: Row, s: Row): Row
  {
    Row(r.ancestor, s.descendant, r.depth + s.depth)
  }

  /** For two rows ending at one node, the row from the farther ancestor
      (`s.ancestor`) down to the nearer one (`r.ancestor`). */
  function Span(r: Row, s: Row): Row
  {
    Row(s.ancestor, r.ancestor, if r.depth <= s.depth then s.depth - r.depth else 0)
  }

  /** Transitively closed, depths adding up along the way.  (Instantiated
      by naming `Compose(r, s)`, which keeps the solver from chaining it.) */
  ghost predicate Transitive(R: set<Row>)
  {
    forall r, s {:trigger Compose(r, s)} :: r in R && s in R && r.descendant == s.ancestor ==> Compose(r, s) in R
  }

  /** The ancestors of a node form one chain: of two ancestors, the farther
      one is an ancestor of the nearer one at the difference of depths. */
  ghost predicate Linear(R: set<Row>)
  {
    forall r, s {:trigger Span(r, s)} :: r in R && s in R && r.descendant == s.descendant && r.depth <= s.depth ==> Span(r, s) in R
  }

  /** `d` has a direct parent. */
  ghost predicate HasParent(R: set<Row>, d: nat)
  {
    exists m :: Row(m, d, 1) in R
  }

  /** Depth is a path length: a node with a strict ancestor has a direct
      parent (with Linear, every row of depth k > 0 then passes through
      that parent at depth k - 1). */
  ghost predicate Gapless(R: set<Row>)
  {
    forall r :: r in R && r.depth > 0 ==> HasParent(R, r.descendant)
  }

  /** The closure table of a forest. */
  ghost predicate Valid(R: set<Row>)
  {
    PairsUnique(R) && Reflexive(R) && ZeroOnlySelf(R) && Transitive(R) && Linear(R) && Gapless(R)
  }

  /** A batch of rows the unique index accepts, one after the other, on top
      of `R`: no row repeats a pair of `R` or another row of the batch. */
  ghost predicate Insertable(R: set<Row>, batch: set<Row>)
  {
    (forall b :: b in batch ==> !HasPair(R, b.ancestor, b.descendant)) && PairsUnique(batch)
  }

  /** One more row the unique index accepts. */
  lemma {:induction false} AcceptRow(R: set<Row>, done: set<Row>, r: Row)
    requires Insertable(R, done) && !HasPair(R + done, r.ancestor, r.descendant)
    ensures Insertable(R, done + {r})
  {
  }

  /** A row of the batch the unique index rejects, after the rows `done`
      went in, shows that the batch as a whole is not insertable. */
  lemma {:induction false} RejectRow(R: set<Row>, done: set<Row>, batch: set<Row>, r: Row)
    requires done <= batch && r in batch && r !in done && HasPair(R + done, r.ancestor, r.descendant)
    ensures !Insertable(R, batch)
  {
    var d :| d in R + done && d.ancestor == r.ancestor && d.descendant == r.descendant;
    if d !in R {
      assert d in batch && d != r && d.depth != r.depth;
    }
  }

  lemma {:induction false} EmptyIsValid()
    ensures Valid({})
  {
  }

  /** No cycles: two nodes that are each other's ancestors are one node. */
  lemma Acyclic(R: set<Row>, r: Row, s: Row)
    requires Valid(R) && r in R && s in R
    requires r.ancestor == s.descendant && r.descendant == s.ancestor
    ensures r.ancestor == r.descendant && r.depth == 0 && s.depth == 0
  {
    assert Compose(r, s) in R;
    assert Row(r.ancestor, r.ancestor, 0) in R;
  }

  /** A node has at most one direct parent. */
  lemma UniqueParent(R: set<Row>, r: Row, s: Row)
    requires Valid(R) && r in R && s in R
    requires r.descendant == s.descendant && r.depth == 1 && s.depth == 1
    ensures r == s
  {
    assert Span(r, s) in R;
  }

  // ---------------------------------------------------------------------
  // Insert: the reflexive row plus a copy of the parent's ancestor chain
  // ---------------------------------------------------------------------

  /** The rows written for a newly persisted node `n`: (n, n, 0), and
      (a, n, k + 1) for every row (a, parent, k). */
  function InsertEntries(R: set<Row>, n: nat, parent: Option<nat>): set<Row>
  {
    {Row(n, n, 0)} +
    if parent.Some? then
      set c | c in R && c.descendant == parent.value :: Row(c.ancestor, n, c.depth + 1)
    else {}
  }

  /** What the inserted rows are, row by row. */
  lemma {:induction false} InsertEntriesAre(R: set<Row>, n: nat, parent: Option<nat>)
    ensures Row(n, n, 0) in InsertEntries(R, n, parent)
    ensures parent.None? ==> InsertEntries(R, n, parent) == {Row(n, n, 0)}
    ensures parent.Some? ==> forall c :: c in R && c.descendant == parent.value ==> Row(c.ancestor, n, c.depth + 1) in InsertEntries(R, n, parent)
    ensures forall e :: e in InsertEntries(R, n, parent) ==>
              e.descendant == n &&
              (e == Row(n, n, 0) || (parent.Some? && e.depth > 0 && Row(e.ancestor, parent.value, e.depth - 1) in R))
  {
  }

  lemma {:induction false} NotInNodes(R: set<Row>, n: nat)
    requires n !in Nodes(R)
    ensures forall r :: r in R ==> r.ancestor != n && r.descendant != n
  {
    forall r | r in R ensures r.ancestor != n && r.descendant != n {
      assert r.ancestor in Nodes(R) && r.descendant in Nodes(R);
    }
  }

  /** One inserted row: the reflexive row, or the copy of a parent row. */
  lemma {:induction false} InsertedRow(R: set<Row>, n: nat, parent: Option<nat>, e: Row)
    requires e in InsertEntries(R, n, parent)
    ensures e.descendant == n
    ensures e == Row(n, n, 0) || (parent.Some? && e.depth > 0 && Row(e.ancestor, parent.value, e.depth - 1) in R)
  {
  }

  lemma {:induction false} InsertKeepsUnique(R: set<Row>, n: nat, parent: Option<nat>)
    requires Valid(R) && n !in Nodes(R)
    ensures PairsUnique(InsertEntries(R, n, parent))
    ensures PairsUnique(R + InsertEntries(R, n, parent))
  {
    var E := InsertEntries(R, n, parent);
    NotInNodes(R, n);
    forall r, s | r in R + E && s in R + E && r.ancestor == s.ancestor && r.descendant == s.descendant
      ensures r.depth == s.depth
    {
      if r in E {
        InsertedRow(R, n, parent, r);
      }
      if s in E {
        InsertedRow(R, n, parent, s);
      }
      if r in E && s in E && r.depth > 0 && s.depth > 0 {
        assert Row(r.ancestor, parent.value, r.depth - 1) in R;
        assert Row(s.ancestor, parent.value, s.depth - 1) in R;
      }
    }
  }

  lemma {:induction false} InsertKeepsReflexive(R: set<Row>, n: nat, parent: Option<nat>)
    requires Valid(R) && n !in Nodes(R)
    ensures Reflexive(R + InsertEntries(R, n, parent)) && ZeroOnlySelf(R + InsertEntries(R, n, parent))
  {
    var E := InsertEntries(R, n, parent);
    var R' := R + E;
    NotInNodes(R, n);
    InsertEntriesAre(R, n, parent);
    forall r | r in R' ensures Row(r.ancestor, r.ancestor, 0) in R' && Row(r.descendant, r.descendant, 0) in R' {
      if r in E {
        InsertedRow(R, n, parent, r);
      }
    }
    forall r | r in R' ensures r.depth == 0 <==> r.ancestor == r.descendant {
      if r in E {
        InsertedRow(R, n, parent, r);
      }
    }
  }

  lemma {:induction false} InsertComposes(R: set<Row>, n: nat, parent: Option<nat>, r: Row, s: Row)
    requires Transitive(R) && n !in Nodes(R)
    requires r in R + InsertEntries(R, n, parent) && s in R + InsertEntries(R, n, parent)
    requires r.descendant == s.ancestor
    ensures Compose(r, s) in R + InsertEntries(R, n, parent)
  {
    NotInNodes(R, n);
    if s in R {
      assert r in R;
      assert Compose(r, s) in R;
    } else {
      InsertedRow(R, n, parent, s);
      if s != Row(n, n, 0) {
        var b := Row(s.ancestor, parent.value, s.depth - 1);
        assert r in R;
        var c := Compose(r, b);
        assert c in R && c.descendant == parent.value;
        assert Compose(r, s) == Row(c.ancestor, n, c.depth + 1);
      }
    }
  }

  lemma {:induction false} InsertKeepsTransitive(R: set<Row>, n: nat, parent: Option<nat>)
    requires Transitive(R) && n !in Nodes(R)
    ensures Transitive(R + InsertEntries(R, n, parent))
  {
    var R' := R + InsertEntries(R, n, parent);
    forall r, s | r in R' && s in R' && r.descendant == s.ancestor ensures Compose(r, s) in R' {
      InsertComposes(R, n, parent, r, s);
    }
  }

  /** One pair of rows ending at the same node after an insert has its
      span. */
  lemma {:induction false} InsertSpans(R: set<Row>, n: nat, parent: Option<nat>, r: Row, s: Row)
    requires Valid(R) && n !in Nodes(R)
    requires r in R + InsertEntries(R, n, parent) && s in R + InsertEntries(R, n, parent)
    requires r.descendant == s.descendant && r.depth <= s.depth
    ensures Span(r, s) in R + InsertEntries(R, n, parent)
  {
    NotInNodes(R, n);
    if r.descendant != n {
      if r !in R { InsertedRow(R, n, parent, r); }
      if s !in R { InsertedRow(R, n, parent, s); }
      assert Span(r, s) in R;
    } else {
      InsertedRow(R, n, parent, r);
      InsertedRow(R, n, parent, s);
      if r != Row(n, n, 0) {
        var a := Row(r.ancestor, parent.value, r.depth - 1);
        var b := Row(s.ancestor, parent.value, s.depth - 1);
        assert Span(a, b) in R;
      }
    }
  }

  lemma {:induction false} InsertKeepsLinear(R: set<Row>, n: nat, parent: Option<nat>)
    requires Valid(R) && n !in Nodes(R)
    ensures Linear(R + InsertEntries(R, n, parent))
  {
    var R' := R + InsertEntries(R, n, parent);
    forall r, s | r in R' && s in R' && r.descendant == s.descendant && r.depth <= s.depth ensures Span(r, s) in R' {
      InsertSpans(R, n, parent, r, s);
    }
  }

  lemma {:induction false} InsertKeepsGapless(R: set<Row>, n: nat, parent: Option<nat>)
    requires Valid(R) && n !in Nodes(R)
    ensures Gapless(R + InsertEntries(R, n, parent))
  {
    var E := InsertEntries(R, n, parent);
    var R' := R + E;
    forall r | r in R' && r.depth > 0 ensures HasParent(R', r.descendant) {
      if r in R {
        var m :| Row(m, r.descendant, 1) in R;
      } else {
        InsertedRow(R, n, parent, r);
        var p := parent.value;
        assert Row(p, p, 0) in R;
        InsertEntriesAre(R, n, parent);
        assert Row(p, n, 1) in E;
      }
    }
  }

  /** Inserting a node the table does not know keeps the table the
      closure table of a forest: the new node hangs below its parent, or
      is a new root when the parent has no rows. */
  lemma {:induction false} InsertPreservesValid(R: set<Row>, n: nat, parent: Option<nat>)
    requires Valid(R) && n !in Nodes(R)
    ensures Valid(R + InsertEntries(R, n, parent))
  {
    InsertKeepsUnique(R, n, parent);
    InsertKeepsReflexive(R, n, parent);
    InsertKeepsTransitive(R, n, parent);
    InsertKeepsLinear(R, n, parent);
    InsertKeepsGapless(R, n, parent);
  }

  /** The unique index accepts the inserted rows exactly when the node is
      new to the table. */
  lemma {:induction false} InsertableIffFresh(R: set<Row>, n: nat, parent: Option<nat>)
    requires Valid(R)
    ensures Insertable(R, InsertEntries(R, n, parent)) <==> n !in Nodes(R)
  {
    var E := InsertEntries(R, n, parent);
    if n !in Nodes(R) {
      NotInNodes(R, n);
      InsertKeepsUnique(R, n, parent);
      forall b | b in E ensures !HasPair(R, b.ancestor, b.descendant) {
        InsertedRow(R, n, parent, b);
      }
    } else {
      var r :| r in R && (r.ancestor == n || r.descendant == n);
      assert Row(n, n, 0) in R;
      InsertEntriesAre(R, n, parent);
      assert HasPair(R, n, n);
    }
  }

  // ---------------------------------------------------------------------
  // Re-parent, step 1: detach the subtree of `n` from its old ancestors
  // ---------------------------------------------------------------------

  /** The DELETE of a re-parent: every row c2 such that some row c1 has
      ancestor `n`, the same descendant, and a smaller depth than c2. */
  function Detach(R: set<Row>, n: nat): set<Row>
  {
    R - set c1, c2 | c1 in R && c2 in R && c1.ancestor == n && c1.descendant == c2.descendant && c2.depth > c1.depth :: c2
  }

  /** Row `r` survives the DELETE: its descendant lies outside the subtree
      of `n`, or its ancestor lies inside it. */
  ghost predicate Kept(R: set<Row>, n: nat, r: Row)
  {
    !HasPair(R, n, r.descendant) || HasPair(R, n, r.ancestor)
  }

  lemma {:induction false} DetachRow(R: set<Row>, n: nat, r: Row)
    requires PairsUnique(R) && Transitive(R) && Linear(R) && r in R
    ensures r in Detach(R, n) <==> Kept(R, n, r)
  {
    var removed := set c1, c2 | c1 in R && c2 in R && c1.ancestor == n && c1.descendant == c2.descendant && c2.depth > c1.depth :: c2;
    if r in removed {
      var c1, c2 :| c1 in R && c2 in R && c1.ancestor == n && c1.descendant == c2.descendant && c2.depth > c1.depth && c2 == r;
      if HasPair(R, n, r.ancestor) {
        var c0 :| c0 in R && c0.ancestor == n && c0.descendant == r.ancestor;
        var through := Compose(c0, r);
      }
    } else if HasPair(R, n, r.descendant) {
      var c1 :| c1 in R && c1.ancestor == n && c1.descendant == r.descendant;
      if r.depth > c1.depth {
        var pair := (c1, r);
      }
      assert Span(r, c1) in R;
    }
  }

  /** The DELETE removes exactly the rows from a strict ancestor of `n` to
      a node of its subtree; rows inside the subtree and rows outside it
      stay. */
  lemma {:induction false} DetachExactly(R: set<Row>, n: nat)
    requires Valid(R)
    ensures Detach(R, n) <= R
    ensures forall r :: r in R && HasPair(R, n, r.descendant) && !HasPair(R, n, r.ancestor) ==>
              r !in Detach(R, n) && HasPair(R, r.ancestor, n) && r.ancestor != n
    ensures forall r :: r in R && HasPair(R, n, r.ancestor) ==> r in Detach(R, n)
    ensures forall r :: r in R && !HasPair(R, n, r.descendant) ==> r in Detach(R, n)
  {
    forall r | r in R ensures r in Detach(R, n) <==> Kept(R, n, r) {
      DetachRow(R, n, r);
    }
    forall r | r in R && HasPair(R, n, r.descendant) && !HasPair(R, n, r.ancestor)
      ensures HasPair(R, r.ancestor, n) && r.ancestor != n
    {
      var c1 :| c1 in R && c1.ancestor == n && c1.descendant == r.descendant;
      assert Row(n, n, 0) in R;
      if r.depth <= c1.depth {
        var between := Span(r, c1);
      }
      assert Span(c1, r) in R;
    }
  }

  /** A node with no strict ancestor loses nothing to the DELETE. */
  lemma {:induction false} DetachRootNoop(R: set<Row>, n: nat)
    requires Valid(R) && IsRoot(R, n)
    ensures Detach(R, n) == R
  {
    forall r | r in R ensures r in Detach(R, n) {
      DetachRow(R, n, r);
      if HasPair(R, n, r.descendant) && !HasPair(R, n, r.ancestor) {
        var c1 :| c1 in R && c1.ancestor == n && c1.descendant == r.descendant;
        if r.depth <= c1.depth {
          var between := Span(r, c1);
        }
        var above := Span(c1, r);
      }
    }
  }

  lemma {:induction false} DetachKeepsReflexive(R: set<Row>, n: nat)
    requires Valid(R)
    ensures Reflexive(Detach(R, n)) && ZeroOnlySelf(Detach(R, n)) && PairsUnique(Detach(R, n))
  {
    var R1 := Detach(R, n);
    forall r | r in R1 ensures Row(r.ancestor, r.ancestor, 0) in R1 && Row(r.descendant, r.descendant, 0) in R1 {
      DetachRow(R, n, r);
      var a := Row(r.ancestor, r.ancestor, 0);
      var d := Row(r.descendant, r.descendant, 0);
      DetachRow(R, n, a);
      DetachRow(R, n, d);
    }
  }

  lemma {:induction false} DetachKeepsTransitive(R: set<Row>, n: nat)
    requires Valid(R)
    ensures Transitive(Detach(R, n))
  {
    var R1 := Detach(R, n);
    forall r, s | r in R1 && s in R1 && r.descendant == s.ancestor ensures Compose(r, s) in R1 {
      DetachRow(R, n, r);
      DetachRow(R, n, s);
      assert Compose(r, s) in R;
      DetachRow(R, n, Compose(r, s));
    }
  }

  lemma {:induction false} DetachKeepsLinear(R: set<Row>, n: nat)
    requires Valid(R)
    ensures Linear(Detach(R, n))
  {
    var R1 := Detach(R, n);
    forall r, s | r in R1 && s in R1 && r.descendant == s.descendant && r.depth <= s.depth ensures Span(r, s) in R1 {
      DetachRow(R, n, r);
      DetachRow(R, n, s);
      assert Span(r, s) in R;
      DetachRow(R, n, Span(r, s));
      if HasPair(R, n, r.ancestor) {
        var c :| c in R && c.ancestor == n && c.descendant == r.ancestor;
        assert Compose(c, r) in R;
      }
    }
  }

  lemma {:induction false} DetachKeepsGapless(R: set<Row>, n: nat)
    requires Valid(R)
    ensures Gapless(Detach(R, n)) && IsRoot(Detach(R, n), n)
  {
    var R1 := Detach(R, n);
    forall r | r in R1 && r.descendant == n ensures r.depth == 0 {
      DetachRow(R, n, r);
      assert Row(n, n, 0) in R;
      var c :| c in R && c.ancestor == n && c.descendant == r.ancestor;
      Acyclic(R, r, c);
    }
    forall r | r in R1 && r.depth > 0 ensures HasParent(R1, r.descendant) {
      var d := r.descendant;
      var m :| Row(m, d, 1) in R;
      var up := Row(m, d, 1);
      DetachRow(R, n, r);
      DetachRow(R, n, up);
      if HasPair(R, n, d) {
        var c :| c in R && c.ancestor == n && c.descendant == d;
        if c.depth == 0 {
          var self := c;
        } else {
          assert Span(up, c) in R;
        }
      }
    }
  }

  /** After the DELETE the table is still the closure table of a forest,
      and `n` is one of its roots. */
  lemma {:induction false} DetachPreservesValid(R: set<Row>, n: nat)
    requires Valid(R)
    ensures Valid(Detach(R, n)) && IsRoot(Detach(R, n), n)
  {
    DetachKeepsReflexive(R, n);
    DetachKeepsTransitive(R, n);
    DetachKeepsLinear(R, n);
    DetachKeepsGapless(R, n);
  }

  // ---------------------------------------------------------------------
  // Re-parent, step 2: graft the subtree of `n` below the new parent
  // ---------------------------------------------------------------------

  /** The INSERT ... SELECT of a re-parent: for every row c1 ending at the
      new parent and every row c2 starting at `n`, the row
      (c1.ancestor, c2.descendant, c1.depth + c2.depth + 1). */
  function Graft(R: set<Row>, n: nat, parent: nat): set<Row>
  {
    set c1, c2 | c1 in R && c2 in R && c1.descendant == parent && c2.ancestor == n ::
      Row(c1.ancestor, c2.descendant, c1.depth + c2.depth + 1)
  }

  /** The two rows a grafted row is made of. */
  lemma {:induction false} GraftedRow(R: set<Row>, n: nat, p: nat, g: Row) returns (c1: Row, c2: Row)
    requires g in Graft(R, n, p)
    ensures c1 in R && c2 in R && c1.descendant == p && c2.ancestor == n
    ensures g == Row(c1.ancestor, c2.descendant, c1.depth + c2.depth + 1)
  {
    c1, c2 :| c1 in R && c2 in R && c1.descendant == p && c2.ancestor == n && g == Row(c1.ancestor, c2.descendant, c1.depth + c2.depth + 1);
  }

  lemma {:induction false} GraftHas(R: set<Row>, n: nat, p: nat, c1: Row, c2: Row)
    requires c1 in R && c2 in R && c1.descendant == p && c2.ancestor == n
    ensures Row(c1.ancestor, c2.descendant, c1.depth + c2.depth + 1) in Graft(R, n, p)
  {
  }

  /** What grafting may assume of the detached table: `n` is a root and the
      new parent lies outside its subtree. */
  ghost predicate GraftReady(R: set<Row>, n: nat, p: nat)
  {
    Valid(R) && IsRoot(R, n) && !HasPair(R, n, p)
  }

  /** An ancestor of the new parent lies outside the subtree. */
  lemma {:induction false} ParentSideOutside(R: set<Row>, n: nat, p: nat, c1: Row)
    requires GraftReady(R, n, p) && c1 in R && c1.descendant == p
    ensures !HasPair(R, n, c1.ancestor)
  {
    if HasPair(R, n, c1.ancestor) {
      var c :| c in R && c.ancestor == n && c.descendant == c1.ancestor;
      var through := Compose(c, c1);
    }
  }

  /** In the detached table, a row ending inside the subtree starts inside
      it, at the depth that completes the path from `n`. */
  lemma {:induction false} InsideRow(R: set<Row>, n: nat, r: Row, c: Row)
    requires Linear(R) && IsRoot(R, n) && r in R && c in R && c.ancestor == n && c.descendant == r.descendant
    ensures r.depth <= c.depth && Row(n, r.ancestor, c.depth - r.depth) in R
  {
    if r.depth > c.depth {
      var above := Span(c, r);
    }
    assert Span(r, c) in R;
  }

  /** A grafted row links a pair the detached table does not link. */
  lemma {:induction false} GraftRowFresh(R: set<Row>, n: nat, p: nat, g: Row)
    requires GraftReady(R, n, p) && g in Graft(R, n, p)
    ensures !HasPair(R, g.ancestor, g.descendant)
  {
    var c1, c2 := GraftedRow(R, n, p, g);
    ParentSideOutside(R, n, p, c1);
    if HasPair(R, g.ancestor, g.descendant) {
      var r :| r in R && r.ancestor == g.ancestor && r.descendant == g.descendant;
      InsideRow(R, n, r, c2);
    }
  }

  /** Two grafted rows linking the same pair have the same depth. */
  lemma {:induction false} GraftPairAgrees(R: set<Row>, n: nat, p: nat, g: Row, h: Row)
    requires PairsUnique(R) && g in Graft(R, n, p) && h in Graft(R, n, p)
    requires g.ancestor == h.ancestor && g.descendant == h.descendant
    ensures g.depth == h.depth
  {
    var c1, c2 := GraftedRow(R, n, p, g);
    var d1, d2 := GraftedRow(R, n, p, h);
  }

  lemma {:induction false} GraftInsertable(R: set<Row>, n: nat, p: nat)
    requires GraftReady(R, n, p)
    ensures Insertable(R, Graft(R, n, p))
  {
    var G := Graft(R, n, p);
    forall g | g in G ensures !HasPair(R, g.ancestor, g.descendant) {
      GraftRowFresh(R, n, p, g);
    }
    forall g, h | g in G && h in G && g.ancestor == h.ancestor && g.descendant == h.descendant
      ensures g.depth == h.depth
    {
      GraftPairAgrees(R, n, p, g, h);
    }
  }

  lemma {:induction false} GraftKeepsReflexive(R: set<Row>, n: nat, p: nat)
    requires GraftReady(R, n, p)
    ensures Reflexive(R + Graft(R, n, p)) && ZeroOnlySelf(R + Graft(R, n, p)) && PairsUnique(R + Graft(R, n, p))
  {
    var G := Graft(R, n, p);
    var R' := R + G;
    GraftInsertable(R, n, p);
    forall r | r in G ensures Row(r.ancestor, r.ancestor, 0) in R && Row(r.descendant, r.descendant, 0) in R && r.depth > 0 && r.ancestor != r.descendant {
      var c1, c2 := GraftedRow(R, n, p, r);
      ParentSideOutside(R, n, p, c1);
    }
    forall r, s | r in R' && s in R' && r.ancestor == s.ancestor && r.descendant == s.descendant
      ensures r.depth == s.depth
    {
      if r in R && s in G {
        var has := HasPair(R, s.ancestor, s.descendant);
      } else if r in G && s in R {
        var has := HasPair(R, r.ancestor, r.descendant);
      }
    }
  }

  lemma {:induction false} ComposeIntoGraft(R: set<Row>, n: nat, p: nat, r: Row, s: Row)
    requires Transitive(R) && r in R && s in Graft(R, n, p) && r.descendant == s.ancestor
    ensures Compose(r, s) in Graft(R, n, p)
  {
    var c1, c2 := GraftedRow(R, n, p, s);
    var up := Compose(r, c1);
    assert up in R;
    GraftHas(R, n, p, up, c2);
  }

  lemma {:induction false} ComposeOutOfGraft(R: set<Row>, n: nat, p: nat, r: Row, s: Row)
    requires Transitive(R) && r in Graft(R, n, p) && s in R && r.descendant == s.ancestor
    ensures Compose(r, s) in Graft(R, n, p)
  {
    var c1, c2 := GraftedRow(R, n, p, r);
    var down := Compose(c2, s);
    assert down in R;
    GraftHas(R, n, p, c1, down);
  }

  lemma {:induction false} GraftComposes(R: set<Row>, n: nat, p: nat, r: Row, s: Row)
    requires GraftReady(R, n, p)
    requires r in R + Graft(R, n, p) && s in R + Graft(R, n, p) && r.descendant == s.ancestor
    ensures Compose(r, s) in R + Graft(R, n, p)
  {
    if r in R && s in R {
      assert Compose(r, s) in R;
    } else if r in R {
      ComposeIntoGraft(R, n, p, r, s);
    } else if s in R {
      ComposeOutOfGraft(R, n, p, r, s);
    } else {
      var c1, c2 := GraftedRow(R, n, p, r);
      var d1, d2 := GraftedRow(R, n, p, s);
      ParentSideOutside(R, n, p, d1);
      assert false;
    }
  }

  lemma {:induction false} GraftKeepsTransitive(R: set<Row>, n: nat, p: nat)
    requires GraftReady(R, n, p)
    ensures Transitive(R + Graft(R, n, p))
  {
    var R' := R + Graft(R, n, p);
    forall r, s | r in R' && s in R' && r.descendant == s.ancestor ensures Compose(r, s) in R' {
      GraftComposes(R, n, p, r, s);
    }
  }

  lemma {:induction false} SpanIntoGraft(R: set<Row>, n: nat, p: nat, r: Row, s: Row)
    requires Linear(R) && IsRoot(R, n)
    requires r in R && s in Graft(R, n, p) && r.descendant == s.descendant && r.depth <= s.depth
    ensures Span(r, s) in Graft(R, n, p)
  {
    var d1, d2 := GraftedRow(R, n, p, s);
    InsideRow(R, n, r, d2);
    var m := Row(n, r.ancestor, d2.depth - r.depth);
    GraftHas(R, n, p, d1, m);
    assert Span(r, s) == Row(d1.ancestor, m.descendant, d1.depth + m.depth + 1);
  }

  lemma {:induction false} SpanWithinGraft(R: set<Row>, n: nat, p: nat, r: Row, s: Row)
    requires PairsUnique(R) && Linear(R)
    requires r in Graft(R, n, p) && s in Graft(R, n, p) && r.descendant == s.descendant && r.depth <= s.depth
    ensures Span(r, s) in R
  {
    var c1, c2 := GraftedRow(R, n, p, r);
    var d1, d2 := GraftedRow(R, n, p, s);
    assert c2.depth == d2.depth;
    assert Span(c1, d1) in R;
  }

  lemma {:induction false} GraftRowIsDeep(R: set<Row>, n: nat, p: nat, r: Row, s: Row)
    requires Linear(R) && IsRoot(R, n)
    requires r in Graft(R, n, p) && s in R && r.descendant == s.descendant
    ensures s.depth < r.depth
  {
    var c1, c2 := GraftedRow(R, n, p, r);
    InsideRow(R, n, s, c2);
  }

  lemma {:induction false} GraftSpans(R: set<Row>, n: nat, p: nat, r: Row, s: Row)
    requires GraftReady(R, n, p)
    requires r in R + Graft(R, n, p) && s in R + Graft(R, n, p)
    requires r.descendant == s.descendant && r.depth <= s.depth
    ensures Span(r, s) in R + Graft(R, n, p)
  {
    if r in R && s in R {
      assert Span(r, s) in R;
    } else if r in R {
      SpanIntoGraft(R, n, p, r, s);
    } else if s in R {
      GraftRowIsDeep(R, n, p, r, s);
      assert false;
    } else {
      SpanWithinGraft(R, n, p, r, s);
    }
  }

  lemma {:induction false} GraftKeepsLinear(R: set<Row>, n: nat, p: nat)
    requires GraftReady(R, n, p)
    ensures Linear(R + Graft(R, n, p))
  {
    var R' := R + Graft(R, n, p);
    forall r, s | r in R' && s in R' && r.descendant == s.descendant && r.depth <= s.depth ensures Span(r, s) in R' {
      GraftSpans(R, n, p, r, s);
    }
  }

  lemma {:induction false} GraftKeepsGapless(R: set<Row>, n: nat, p: nat)
    requires GraftReady(R, n, p)
    ensures Gapless(R + Graft(R, n, p))
  {
    var R' := R + Graft(R, n, p);
    forall r | r in R' && r.depth > 0 ensures HasParent(R', r.descendant) {
      if r in R {
        var m :| Row(m, r.descendant, 1) in R;
      } else {
        var c1, c2 := GraftedRow(R, n, p, r);
        if c2.depth > 0 {
          var m :| Row(m, c2.descendant, 1) in R;
        } else {
          assert Row(p, p, 0) in R;
          GraftHas(R, n, p, Row(p, p, 0), c2);
          assert Row(p, r.descendant, 1) in R';
        }
      }
    }
  }

  /** Grafting a root's subtree below a node outside it keeps the table the
      closure table of a forest, and the unique index accepts every row. */
  lemma {:induction false} GraftPreservesValid(R: set<Row>, n: nat, p: nat)
    requires GraftReady(R, n, p)
    ensures Insertable(R, Graft(R, n, p)) && Valid(R + Graft(R, n, p))
  {
    GraftInsertable(R, n, p);
    GraftKeepsReflexive(R, n, p);
    GraftKeepsTransitive(R, n, p);
    GraftKeepsLinear(R, n, p);
    GraftKeepsGapless(R, n, p);
  }

  /** The new rows mention only the new node and nodes already known. */
  lemma {:induction false} InsertNodes(R: set<Row>, n: nat, parent: Option<nat>)
    ensures Nodes(R + InsertEntries(R, n, parent)) == Nodes(R) + {n}
  {
    var E := InsertEntries(R, n, parent);
    forall x | x in Nodes(R + E) ensures x in Nodes(R) + {n} {
      var r :| r in R + E && (r.ancestor == x || r.descendant == x);
      if r in E {
        InsertedRow(R, n, parent, r);
        if r != Row(n, n, 0) && x != n {
          assert Row(r.ancestor, parent.value, r.depth - 1) in R;
        }
      }
    }
    InsertEntriesAre(R, n, parent);
    assert n in Nodes(R + E) by {
      assert Row(n, n, 0) in R + E;
    }
  }

  // ---------------------------------------------------------------------
  // Re-parent: the integrity check, then DELETE, then INSERT ... SELECT
  // ---------------------------------------------------------------------

  /** A reflexive row survives the DELETE. */
  lemma {:induction false} DetachKeepsSelf(R: set<Row>, n: nat, x: nat)
    requires Row(x, x, 0) in R
    ensures Row(x, x, 0) in Detach(R, n)
  {
  }

  /** The table after the DELETE step, which runs only when the node had
      an old parent. */
  function Detached(R: set<Row>, n: nat, hadOldParent: bool): set<Row>
  {
    if hadOldParent then Detach(R, n) else R
  }

  /** What a re-parent of `n` does to the table.  It fails before touching
      any row when the new parent lies in the subtree of `n`; it detaches
      the subtree when the node had an old parent; it grafts the subtree
      below the new parent when there is one, and that INSERT fails when
      the unique index rejects a row. */
  ghost function Reparent(R: set<Row>, n: nat, parent: Option<nat>, hadOldParent: bool): Result<set<Row>>
  {
    if parent.Some? && HasPair(R, n, parent.value) then
      Failure(UnexpectedValueException(n))
    else
      var R1 := Detached(R, n, hadOldParent);
      if parent.None? then
        Success(R1)
      else if Insertable(R1, Graft(R1, n, parent.value)) then
        Success(R1 + Graft(R1, n, parent.value))
      else
        Failure(RuntimeException(InsertFailedMessage))
  }

  /** The graft step of a re-parent, on the detached table. */
  lemma {:induction false} ReparentGraft(R: set<Row>, R1: set<Row>, n: nat, p: nat)
    requires Valid(R) && Valid(R1) && IsRoot(R1, n) && R1 <= R && !HasPair(R, n, p)
    requires Row(n, n, 0) in R ==> Row(n, n, 0) in R1
    requires Row(p, p, 0) in R ==> Row(p, p, 0) in R1
    ensures Insertable(R1, Graft(R1, n, p)) && Valid(R1 + Graft(R1, n, p))
    ensures HasPair(R, n, n) && HasPair(R, p, p) ==> Row(p, n, 1) in R1 + Graft(R1, n, p)
  {
    assert !HasPair(R1, n, p);
    GraftPreservesValid(R1, n, p);
    if HasPair(R, n, n) && HasPair(R, p, p) {
      var cn :| cn in R && cn.ancestor == n && cn.descendant == n;
      var cp :| cp in R && cp.ancestor == p && cp.descendant == p;
      GraftHas(R1, n, p, Row(p, p, 0), Row(n, n, 0));
    }
  }

  /** The table after the DELETE step (none when there was no old parent). */
  lemma {:induction false} ReparentDetach(R: set<Row>, n: nat, hadOldParent: bool)
    requires Valid(R) && (hadOldParent || IsRoot(R, n))
    ensures var R1 := if hadOldParent then Detach(R, n) else R;
            Valid(R1) && IsRoot(R1, n) && R1 <= R &&
            (forall x :: Row(x, x, 0) in R ==> Row(x, x, 0) in R1) &&
            (forall r :: r in R && (HasPair(R, n, r.ancestor) || !HasPair(R, n, r.descendant)) ==> r in R1)
  {
    if hadOldParent {
      DetachPreservesValid(R, n);
      DetachExactly(R, n);
    }
  }

  /** On a valid table whose rows agree with the old parent (a node without
      one is a root), a re-parent fails exactly when the new parent lies in
      the node's subtree; otherwise it keeps the table the closure table of
      a forest, leaves every row inside the moved subtree and every row
      outside it in place, and makes `n` a root or a direct child of the
      new parent. */
  lemma {:induction false} ReparentPreservesValid(R: set<Row>, n: nat, parent: Option<nat>, hadOldParent: bool)
    requires Valid(R) && (hadOldParent || IsRoot(R, n))
    ensures Reparent(R, n, parent, hadOldParent).Failure? <==> parent.Some? && HasPair(R, n, parent.value)
    ensures Reparent(R, n, parent, hadOldParent).Failure? ==>
              Reparent(R, n, parent, hadOldParent).error == UnexpectedValueException(n)
    ensures Reparent(R, n, parent, hadOldParent).Success? ==>
              var R' := Reparent(R, n, parent, hadOldParent).value;
              Valid(R') &&
              (forall r :: r in R && (HasPair(R, n, r.ancestor) || !HasPair(R, n, r.descendant)) ==> r in R') &&
              (parent.None? ==> IsRoot(R', n)) &&
              (parent.Some? && HasPair(R, n, n) && HasPair(R, parent.value, parent.value) ==> Row(parent.value, n, 1) in R')
  {
    if parent.Some? && HasPair(R, n, parent.value) {
      return;
    }
    var R1 := if hadOldParent then Detach(R, n) else R;
    ReparentDetach(R, n, hadOldParent);
    if parent.Some? {
      ReparentGraft(R, R1, n, parent.value);
      assert Reparent(R, n, parent, hadOldParent) == Success(R1 + Graft(R1, n, parent.value));
    } else {
      assert Reparent(R, n, parent, hadOldParent) == Success(R1);
    }
  }

  /** The integrity check rejects exactly the moves that would make a node
      its own ancestor: a new parent in the subtree of `n`, `n` itself
      included. */
  lemma {:induction false} CycleRejected(R: set<Row>, n: nat, p: nat, hadOldParent: bool)
    requires Valid(R) && HasPair(R, n, n)
    ensures Reparent(R, n, Some(p), hadOldParent) == Failure(UnexpectedValueException(n)) <==> p in Subtree(R, n)
  {
    if p in Subtree(R, n) {
      var r :| r in R && r.ancestor == n && r.descendant == p;
    }
  }

  // ---------------------------------------------------------------------
  // Levels: MAX(depth) + 1 over the rows ending at a node
  // ---------------------------------------------------------------------

  /** The depths of the rows ending at `k`. */
  function DepthsTo(R: set<Row>, k: nat): set<nat>
  {
    set r | r in R && r.descendant == k :: r.depth
  }

  /** The largest element of a non-empty finite set. */
  lemma {:induction false} MaxOf(s: set<nat>) returns (m: nat)
    requires s != {}
    ensures m in s && forall y :: y in s ==> y <= m
    decreases |s|
  {
    var x :| x in s;
    if s == {x} {
      m := x;
    } else {
      var rest := MaxOf(s - {x});
      m := if x <= rest then rest else x;
      forall y | y in s ensures y <= m {
        if y != x {
          assert y in s - {x};
        }
      }
    }
  }

  lemma {:induction false} MaxExists(s: set<nat>)
    requires s != {}
    ensures exists m :: m in s && forall y :: y in s ==> y <= m
  {
    var m := MaxOf(s);
  }

  /** The aggregate `SELECT descendant, MAX(depth) + 1 ... GROUP BY
      descendant` for one node: no value when no row ends at `k`. */
  function LevelOf(R: set<Row>, k: nat): (level: Option<nat>)
    ensures level.None? <==> !exists r :: r in R && r.descendant == k
    ensures level.Some? ==>
              (exists r :: r in R && r.descendant == k && r.depth + 1 == level.value) &&
              (forall r :: r in R && r.descendant == k ==> r.depth < level.value)
  {
    var D := DepthsTo(R, k);
    assert forall r :: r in R && r.descendant == k ==> r.depth in D;
    if D == {} then
      None
    else
      MaxExists(D);
      var m :| m in D && forall y :: y in D ==> y <= m;
      Some(m + 1)
  }

  /** The aggregate is pinned down by one row reaching the value and a
      bound on all the others. */
  lemma {:induction false} LevelIs(R: set<Row>, k: nat, r: Row, v: nat)
    requires r in R && r.descendant == k && r.depth + 1 == v
    requires forall s :: s in R && s.descendant == k ==> s.depth < v
    ensures LevelOf(R, k) == Some(v)
  {
    var level := LevelOf(R, k);
    var top :| top in R && top.descendant == k && top.depth + 1 == level.value;
  }

  /** In a valid table, the level of a node is one more than its depth
      below the root of its tree. */
  lemma {:induction false} LevelIsDepthBelowRoot(R: set<Row>, k: nat)
    requires Valid(R) && HasPair(R, k, k)
    ensures LevelOf(R, k).Some?
    ensures exists root :: IsRoot(R, root) && Row(root, k, LevelOf(R, k).value - 1) in R
  {
    var level := LevelOf(R, k).value;
    var top :| top in R && top.descendant == k && top.depth + 1 == level;
    forall s | s in R && s.descendant == top.ancestor ensures s.depth == 0 {
      var longer := Compose(s, top);
      assert longer in R;
    }
    assert IsRoot(R, top.ancestor) && Row(top.ancestor, k, level - 1) == top;
  }

  lemma {:induction false} RootInsertLevel(R: set<Row>, n: nat)
    requires n !in Nodes(R)
    ensures LevelOf(R + InsertEntries(R, n, None), n) == Some(1)
  {
    var R' := R + InsertEntries(R, n, None);
    NotInNodes(R, n);
    InsertEntriesAre(R, n, None);
    LevelIs(R', n, Row(n, n, 0), 1);
  }

  lemma {:induction false} ChildInsertLevel(R: set<Row>, n: nat, p: nat)
    requires n !in Nodes(R) && LevelOf(R, p).Some?
    ensures LevelOf(R + InsertEntries(R, n, Some(p)), n) == Some(LevelOf(R, p).value + 1)
  {
    var E := InsertEntries(R, n, Some(p));
    var R' := R + E;
    NotInNodes(R, n);
    var level := LevelOf(R, p).value;
    var top :| top in R && top.descendant == p && top.depth + 1 == level;
    forall s | s in R' && s.descendant == n ensures s.depth < level + 1 {
      InsertedRow(R, n, Some(p), s);
      if s.depth > 0 {
        var below := Row(s.ancestor, p, s.depth - 1);
        assert below in R && below.descendant == p;
      }
    }
    var copy := Row(top.ancestor, n, top.depth + 1);
    assert copy in E;
    LevelIs(R', n, copy, level + 1);
  }

  lemma {:induction false} InsertKeepsOtherLevels(R: set<Row>, n: nat, parent: Option<nat>, k: nat)
    requires k != n
    ensures LevelOf(R + InsertEntries(R, n, parent), k) == LevelOf(R, k)
  {
    var E := InsertEntries(R, n, parent);
    forall s | s in E ensures s.descendant != k {
      InsertedRow(R, n, parent, s);
    }
    assert DepthsTo(R + E, k) == DepthsTo(R, k);
  }

  /** The level the pass computes for a freshly inserted node: 1 without a
      parent (the value written at once when the node is persisted), and
      one more than the parent's level below a parent; the other nodes'
      levels do not change. */
  lemma {:induction false} InsertedLevel(R: set<Row>, n: nat, parent: Option<nat>)
    requires n !in Nodes(R)
    ensures parent.None? ==> LevelOf(R + InsertEntries(R, n, parent), n) == Some(1)
    ensures parent.Some? && LevelOf(R, parent.value).Some? ==>
              LevelOf(R + InsertEntries(R, n, parent), n) == Some(LevelOf(R, parent.value).value + 1)
    ensures forall k :: k != n ==> LevelOf(R + InsertEntries(R, n, parent), k) == LevelOf(R, k)
  {
    if parent.None? {
      RootInsertLevel(R, n);
    } else if LevelOf(R, parent.value).Some? {
      ChildInsertLevel(R, n, parent.value);
    }
    forall k | k != n ensures LevelOf(R + InsertEntries(R, n, parent), k) == LevelOf(R, k) {
      InsertKeepsOtherLevels(R, n, parent, k);
    }
  }

  /** The level column written by the level pass for the nodes `K`. */
  function LevelMap(R: set<Row>, K: set<nat>): map<nat, Option<nat>>
  {
    map k | k in K :: LevelOf(R, k)
  }

  /** Writing one more node's level extends the written map by that node. */
  lemma {:induction false} LevelMapAdd(M: map<nat, Option<nat>>, R: set<Row>, W: set<nat>, k: nat)
    ensures (M + LevelMap(R, W))[k := LevelOf(R, k)] == M + LevelMap(R, W + {k})
  {
  }

  /** The level queue after the first loop of the level pass: the queued
      keys and the strict descendants of each (the repository's
      `children(node)`). */
  function Expand(R: set<Row>, K: set<nat>): (E: set<nat>)
    ensures K <= E
    ensures forall r :: r in R && r.ancestor in K ==> r.descendant in E || r.depth == 0
  {
    K + set r | r in R && r.ancestor in K && r.depth > 0 :: r.descendant
  }

  /** Expanding one more key adds the key and its strict descendants. */
  lemma {:induction false} ExpandAdd(R: set<Row>, K: set<nat>, k: nat)
    ensures Expand(R, K + {k}) == Expand(R, K) + {k} + Children(R, k)
  {
  }

  /** Expanding a snapshot of the queue once is enough: the descendants of
      the added nodes are already there, so the pass reaches every node of
      every queued subtree although it does not revisit the nodes it adds. */
  lemma {:induction false} ExpandCovers(R: set<Row>, K: set<nat>)
    requires Valid(R)
    ensures forall k, d :: k in K && d in Subtree(R, k) ==> d in Expand(R, K)
    ensures Expand(R, Expand(R, K)) == Expand(R, K)
  {
    var E := Expand(R, K);
    forall k, d | k in K && d in Subtree(R, k) ensures d in E {
      var r :| r in R && r.ancestor == k && r.descendant == d;
    }
    forall d | d in Expand(R, E) ensures d in E {
      if d !in E {
        var r :| r in R && r.ancestor in E && r.depth > 0 && r.descendant == d;
        var c :| c in R && c.ancestor in K && c.depth > 0 && c.descendant == r.ancestor;
        var through := Compose(c, r);
      }
    }
  }

  /** A chain root 1, child 2, grandchild 3, persisted in that order,
      leaves exactly six rows. */
  lemma {:induction false} ChainOfThree()
    ensures var R1 := {} + InsertEntries({}, 1, None);
            var R2 := R1 + InsertEntries(R1, 2, Some(1));
            var R3 := R2 + InsertEntries(R2, 3, Some(2));
            R3 == {Row(1, 1, 0), Row(2, 2, 0), Row(1, 2, 1), Row(3, 3, 0), Row(2, 3, 1), Row(1, 3, 2)}
  {
    var R1 := {} + InsertEntries({}, 1, None);
    assert R1 == {Row(1, 1, 0)};
    var R2 := R1 + InsertEntries(R1, 2, Some(1));
    assert InsertEntries(R1, 2, Some(1)) == {Row(2, 2, 0), Row(1, 2, 1)} by {
      assert (set c | c in R1 && c.descendant == 1 :: Row(c.ancestor, 2, c.depth + 1)) == {Row(1, 2, 1)};
    }
    var E3 := InsertEntries(R2, 3, Some(2));
    assert E3 == {Row(3, 3, 0), Row(2, 3, 1), Row(1, 3, 2)} by {
      var copies := set c | c in R2 && c.descendant == 2 :: Row(c.ancestor, 3, c.depth + 1);
      assert Row(2, 2, 0) in R2 && Row(1, 2, 1) in R2;
      assert copies == {Row(2, 3, 1), Row(1, 3, 2)};
    }
  }

  /** Inserting a new node leaves every other root a root of the table. */
  lemma {:induction false} InsertKeepsRoot(R: set<Row>, n: nat, parent: Option<nat>, m: nat)
    requires IsRoot(R, m) && HasPair(R, m, m) && n !in Nodes(R)
    ensures IsRoot(R + InsertEntries(R, n, parent), m) && HasPair(R + InsertEntries(R, n, parent), m, m)
  {
    var E := InsertEntries(R, n, parent);
    NotInNodes(R, n);
    var c :| c in R && c.ancestor == m && c.descendant == m;
    forall r | r in E ensures r.descendant != m {
      InsertedRow(R, n, parent, r);
    }
  }

  /** Moving `n` leaves every other root a root of the table. */
  lemma {:induction false} ReparentKeepsRoot(R: set<Row>, n: nat, parent: Option<nat>, hadOldParent: bool, m: nat)
    requires Valid(R) && IsRoot(R, m) && HasPair(R, m, m) && m != n
    requires Reparent(R, n, parent, hadOldParent).Success?
    ensures IsRoot(Reparent(R, n, parent, hadOldParent).value, m)
    ensures HasPair(Reparent(R, n, parent, hadOldParent).value, m, m)
  {
    var R1 := Detached(R, n, hadOldParent);
    var c :| c in R && c.ancestor == m && c.descendant == m;
    assert c == Row(m, m, 0);
    DetachKeepsSelf(R, n, m);
    assert R1 <= R;
    if parent.Some? {
      var G := Graft(R1, n, parent.value);
      forall r | r in G ensures r.descendant != m {
        var c1, c2 := GraftedRow(R1, n, parent.value, r);
      }
    }
  }

  lemma {:induction false} ReparentKeepsRoots(R: set<Row>, n: nat, parent: Option<nat>, hadOldParent: bool)
    requires Valid(R) && Reparent(R, n, parent, hadOldParent).Success?
    ensures forall m :: m != n && IsRoot(R, m) && HasPair(R, m, m) ==>
              IsRoot(Reparent(R, n, parent, hadOldParent).value, m) && HasPair(Reparent(R, n, parent, hadOldParent).value, m, m)
  {
    forall m | m != n && IsRoot(R, m) && HasPair(R, m, m)
      ensures IsRoot(Reparent(R, n, parent, hadOldParent).value, m) && HasPair(Reparent(R, n, parent, hadOldParent).value, m, m)
    {
      ReparentKeepsRoot(R, n, parent, hadOldParent, m);
    }
  }

  // ---------------------------------------------------------------------
  // Sequences of statements: the post-persist drain and the replay
  // ---------------------------------------------------------------------

  /** A node awaiting its rows: its identifier and its parent's. */
  datatype NewNode = NewNode(id: nat, parent: Option<nat>)

  /** A parked re-parent: the node, its new parent, and whether it had an
      old parent. */
  datatype Move = Move(id: nat, parent: Option<nat>, hadOldParent: bool)

  /** The table after the rows of every node of `ks` are inserted, first
      to last, each reading the ancestors of its parent from the table as
      the earlier inserts left it. */
  function InsertAll(R: set<Row>, ks: seq<NewNode>): set<Row>
    decreases |ks|
  {
    if ks == [] then R else InsertAll(R + InsertEntries(R, ks[0].id, ks[0].parent), ks[1..])
  }

  /** Every insert of the drain passes the unique index, each checked
      against the table the earlier inserts left. */
  ghost predicate InsertAllAccepted(R: set<Row>, ks: seq<NewNode>)
    decreases |ks|
  {
    ks == [] ||
    (Insertable(R, InsertEntries(R, ks[0].id, ks[0].parent)) &&
     InsertAllAccepted(R + InsertEntries(R, ks[0].id, ks[0].parent), ks[1..]))
  }

  /** The identifiers of the nodes of `ks`. */
  function NewIds(ks: seq<NewNode>): set<nat>
  {
    set i | 0 <= i < |ks| :: ks[i].id
  }

  lemma NewIdsSplit(ks: seq<NewNode>)
    requires ks != []
    ensures NewIds(ks) == {ks[0].id} + NewIds(ks[1..])
  {
    forall x | x in NewIds(ks) ensures x in {ks[0].id} + NewIds(ks[1..]) {
      var i :| 0 <= i < |ks| && ks[i].id == x;
      if i > 0 {
        assert ks[1..][i - 1] == ks[i];
      }
    }
    forall x | x in NewIds(ks[1..]) ensures x in NewIds(ks) {
      var i :| 0 <= i < |ks[1..]| && ks[1..][i].id == x;
      assert ks[1..][i] == ks[i + 1];
    }
  }

  /** The rows of distinct new nodes, with none of them in the table. */
  ghost predicate FreshBatch(R: set<Row>, ks: seq<NewNode>)
  {
    (forall i :: 0 <= i < |ks| ==> ks[i].id !in Nodes(R)) &&
    (forall i, j :: 0 <= i < j < |ks| ==> ks[i].id != ks[j].id)
  }

  /** After the first insert of a fresh batch the rest is still fresh. */
  lemma InsertFirstFresh(R: set<Row>, ks: seq<NewNode>)
    requires ks != [] && FreshBatch(R, ks)
    ensures FreshBatch(R + InsertEntries(R, ks[0].id, ks[0].parent), ks[1..])
  {
    var R' := R + InsertEntries(R, ks[0].id, ks[0].parent);
    InsertNodes(R, ks[0].id, ks[0].parent);
    forall i | 0 <= i < |ks[1..]| ensures ks[1..][i].id !in Nodes(R') {
      assert ks[1..][i] == ks[i + 1];
      assert ks[0].id != ks[i + 1].id;
    }
    forall i, j | 0 <= i < j < |ks[1..]| ensures ks[1..][i].id != ks[1..][j].id {
      assert ks[1..][i] == ks[i + 1] && ks[1..][j] == ks[j + 1];
    }
  }

  /** Distinct new nodes inserted one after the other into a valid table
      each pass the unique index. */
  lemma {:induction false} FreshBatchAccepted(R: set<Row>, ks: seq<NewNode>)
    requires Valid(R) && FreshBatch(R, ks)
    ensures InsertAllAccepted(R, ks)
    decreases |ks|
  {
    if ks != [] {
      var k := ks[0];
      InsertableIffFresh(R, k.id, k.parent);
      InsertPreservesValid(R, k.id, k.parent);
      InsertFirstFresh(R, ks);
      FreshBatchAccepted(R + InsertEntries(R, k.id, k.parent), ks[1..]);
    }
  }

  /** Inserting distinct new nodes one after the other passes the unique
      index at every step, keeps the table the closure table of a forest,
      keeps every row, and adds exactly their identifiers to its nodes. */
  lemma {:induction false} InsertAllPreservesValid(R: set<Row>, ks: seq<NewNode>)
    requires Valid(R) && FreshBatch(R, ks)
    ensures InsertAllAccepted(R, ks)
    ensures Valid(InsertAll(R, ks)) && R <= InsertAll(R, ks)
    ensures Nodes(InsertAll(R, ks)) == Nodes(R) + NewIds(ks)
    decreases |ks|
  {
    FreshBatchAccepted(R, ks);
    if ks == [] {
      assert NewIds(ks) == {};
    } else {
      var k := ks[0];
      var R' := R + InsertEntries(R, k.id, k.parent);
      InsertPreservesValid(R, k.id, k.parent);
      InsertNodes(R, k.id, k.parent);
      InsertFirstFresh(R, ks);
      InsertAllPreservesValid(R', ks[1..]);
      NewIdsSplit(ks);
    }
  }

  /** A child inserted before its parent has rows (the parent is persisted
      later in the same flush) finds no ancestor rows to copy: it gets its
      reflexive row only, and so enters the table as a root. */
  lemma {:induction false} ChildBeforeParent(R: set<Row>, n: nat, p: nat)
    requires p !in Nodes(R)
    ensures InsertEntries(R, n, Some(p)) == {Row(n, n, 0)}
  {
    NotInNodes(R, p);
  }

  /** The table after the re-parents of `ms`, first to last; the first one
      that fails ends the sequence with its error. */
  ghost function ReparentAll(R: set<Row>, ms: seq<Move>): Result<set<Row>>
    decreases |ms|
  {
    if ms == [] then
      Success(R)
    else
      var r := Reparent(R, ms[0].id, ms[0].parent, ms[0].hadOldParent);
      if r.Failure? then r else ReparentAll(r.value, ms[1..])
  }

  /** Re-parents of distinct nodes, where a node without an old parent is
      a root of the table. */
  ghost predicate MovesReady(R: set<Row>, ms: seq<Move>)
  {
    (forall i, j :: 0 <= i < j < |ms| ==> ms[i].id != ms[j].id) &&
    (forall i :: 0 <= i < |ms| && !ms[i].hadOldParent ==> IsRoot(R, ms[i].id) && HasPair(R, ms[i].id, ms[i].id))
  }

  /** After a successful first re-parent the other moves are still ready. */
  lemma ReparentFirstReady(R: set<Row>, ms: seq<Move>)
    requires Valid(R) && ms != [] && MovesReady(R, ms)
    requires Reparent(R, ms[0].id, ms[0].parent, ms[0].hadOldParent).Success?
    ensures MovesReady(Reparent(R, ms[0].id, ms[0].parent, ms[0].hadOldParent).value, ms[1..])
  {
    var m := ms[0];
    var R' := Reparent(R, m.id, m.parent, m.hadOldParent).value;
    ReparentKeepsRoots(R, m.id, m.parent, m.hadOldParent);
    forall i | 0 <= i < |ms[1..]| && !ms[1..][i].hadOldParent
      ensures IsRoot(R', ms[1..][i].id) && HasPair(R', ms[1..][i].id, ms[1..][i].id)
    {
      assert ms[1..][i] == ms[i + 1];
      assert ms[0].id != ms[i + 1].id;
    }
    forall i, j | 0 <= i < j < |ms[1..]| ensures ms[1..][i].id != ms[1..][j].id {
      assert ms[1..][i] == ms[i + 1] && ms[1..][j] == ms[j + 1];
    }
  }

  /** Replaying re-parents of distinct nodes, where a node without an old
      parent is a root of the table, keeps the table the closure table of
      a forest, and the only failure is the cycle check's. */
  lemma {:induction false} ReparentAllPreservesValid(R: set<Row>, ms: seq<Move>)
    requires Valid(R) && MovesReady(R, ms)
    ensures ReparentAll(R, ms).Failure? ==> ReparentAll(R, ms).error.UnexpectedValueException?
    ensures ReparentAll(R, ms).Success? ==> Valid(ReparentAll(R, ms).value)
    decreases |ms|
  {
    if ms != [] {
      var m := ms[0];
      ReparentPreservesValid(R, m.id, m.parent, m.hadOldParent);
      var r := Reparent(R, m.id, m.parent, m.hadOldParent);
      if r.Success? {
        ReparentFirstReady(R, ms);
        ReparentAllPreservesValid(r.value, ms[1..]);
      }
    }
  }

  /** On any table, a replay fails only as one re-parent does: on the
      cycle check, or on an INSERT the unique index refuses. */
  lemma {:induction false} ReparentAllFailures(R: set<Row>, ms: seq<Move>)
    ensures ReparentAll(R, ms).Failure? ==>
              ReparentAll(R, ms).error.UnexpectedValueException? ||
              ReparentAll(R, ms).error == RuntimeException(InsertFailedMessage)
    decreases |ms|
  {
    if ms != [] {
      var r := Reparent(R, ms[0].id, ms[0].parent, ms[0].hadOldParent);
      if r.Success? {
        ReparentAllFailures(r.value, ms[1..]);
      }
    }
  }
}
