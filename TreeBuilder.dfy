/** The nested forest the repository utilities build from a flat list of
    records ordered depth first, each carrying its level: what the result
    is (a fold that attaches each record below the rightmost open record
    of smaller level), that flattening it gives the input back, and the
    open-frame stack the building loop keeps. */
module TreeBuilder {

  /** One row of the hierarchy query: its level and its other columns. */
  datatype Record = Record(level: int, columns: map<string, string>)

  /** A record with its children entry. */
  datatype TreeNode = TreeNode(item: Record, children: seq<TreeNode>)

  /** The record with its children entry cleared: a column named like the
      children index is overwritten by it. */
  function StripRecord(r: Record, childrenIndex: string): (s: Record)
    ensures s.level == r.level && childrenIndex !in s.columns
    ensures forall c :: c in r.columns && c != childrenIndex ==> c in s.columns && s.columns[c] == r.columns[c]
    ensures s.columns.Keys <= r.columns.Keys
  {
    Record(r.level, r.columns - {childrenIndex})
  }

  function Strip(rs: seq<Record>, childrenIndex: string): (s: seq<Record>)
    ensures |s| == |rs| && forall i :: 0 <= i < |rs| ==> s[i] == StripRecord(rs[i], childrenIndex)
  {
    seq(|rs|, i requires 0 <= i < |rs| => StripRecord(rs[i], childrenIndex))
  }

  /** Places record `x` after the records of `forest`: below the last root
      when that root has a smaller level (and so on down the rightmost
      path), otherwise as a new last root. */
  function Attach(forest: seq<TreeNode>, x: Record): seq<TreeNode>
  {
    if forest != [] && forest[|forest| - 1].item.level < x.level then
      forest[..|forest| - 1] + [TreeNode(forest[|forest| - 1].item, Attach(forest[|forest| - 1].children, x))]
    else
      forest + [TreeNode(x, [])]
  }

  /** The forest of a list of records, attached one after the other. */
  function Build(xs: seq<Record>): seq<TreeNode>
  {
    if xs == [] then [] else Attach(Build(xs[..|xs| - 1]), xs[|xs| - 1])
  }

  /** The records of a forest, each before its children, roots in order. */
  function PreOrder(f: seq<TreeNode>): seq<Record>
  {
    if f == [] then [] else PreOrder(f[..|f| - 1]) + [f[|f| - 1].item] + PreOrder(f[|f| - 1].children)
  }

  lemma {:induction false} PreOrderAttach(f: seq<TreeNode>, x: Record)
    ensures PreOrder(Attach(f, x)) == PreOrder(f) + [x]
  {
    if f != [] && f[|f| - 1].item.level < x.level {
      var last := f[|f| - 1];
      var g := f[..|f| - 1];
      var moved := TreeNode(last.item, Attach(last.children, x));
      PreOrderAttach(last.children, x);
      assert (g + [moved])[..|g + [moved]| - 1] == g;
    } else {
      assert (f + [TreeNode(x, [])])[..|f|] == f;
    }
  }

  /** Flattening the built forest in pre-order gives the records back, in
      their order: every record is placed exactly once. */
  lemma {:induction false} BuildRoundTrip(xs: seq<Record>)
    ensures PreOrder(Build(xs)) == xs
  {
    if xs != [] {
      var front, x := xs[..|xs| - 1], xs[|xs| - 1];
      var f := Build(front);
      assert Build(xs) == Attach(f, x);
      BuildRoundTrip(front);
      PreOrderAttach(f, x);
      assert front + [x] == xs;
    }
  }

  /** A child has a greater level than its parent, throughout the forest. */
  predicate LevelsIncrease(f: seq<TreeNode>)
  {
    forall i :: 0 <= i < |f| ==>
      (forall j :: 0 <= j < |f[i].children| ==> f[i].item.level < f[i].children[j].item.level) &&
      LevelsIncrease(f[i].children)
  }

  lemma {:induction false} AttachKeepsLevelsIncreasing(f: seq<TreeNode>, x: Record)
    requires LevelsIncrease(f)
    ensures LevelsIncrease(Attach(f, x))
    ensures forall i :: 0 <= i < |Attach(f, x)| ==> Attach(f, x)[i].item == (if i < |f| then f[i].item else x)
    ensures |Attach(f, x)| == |f| || |Attach(f, x)| == |f| + 1
  {
    if f != [] && f[|f| - 1].item.level < x.level {
      var last := f[|f| - 1];
      AttachKeepsLevelsIncreasing(last.children, x);
      var kids := Attach(last.children, x);
      var r := Attach(f, x);
      assert r[|f| - 1] == TreeNode(last.item, kids);
      forall i | 0 <= i < |r|
        ensures (forall j :: 0 <= j < |r[i].children| ==> r[i].item.level < r[i].children[j].item.level) && LevelsIncrease(r[i].children)
      {
        if i < |f| - 1 {
          assert r[i] == f[i];
        }
      }
    } else {
      var r := Attach(f, x);
      forall i | 0 <= i < |r|
        ensures (forall j :: 0 <= j < |r[i].children| ==> r[i].item.level < r[i].children[j].item.level) && LevelsIncrease(r[i].children)
      {
        if i < |f| {
          assert r[i] == f[i];
        }
      }
    }
  }

  /** In the built forest every child has a greater level than its parent. */
  lemma {:induction false} BuildLevelsIncrease(xs: seq<Record>)
    ensures LevelsIncrease(Build(xs))
  {
    if xs != [] {
      BuildLevelsIncrease(xs[..|xs| - 1]);
      AttachKeepsLevelsIncreasing(Build(xs[..|xs| - 1]), xs[|xs| - 1]);
    }
  }

  // ---------------------------------------------------------------------
  // The stack of open records kept by the building loop
  // ---------------------------------------------------------------------

  /** A record on the stack with the children placed below it so far; the
      record above it on the stack is its next child, not yet closed. */
  datatype Frame = Frame(item: Record, kids: seq<TreeNode>)

  /** The subtree a non-empty stack stands for, rooted at its bottom. */
  function CloseFrom(st: seq<Frame>): TreeNode
    requires |st| > 0
    decreases |st|
  {
    if |st| == 1 then TreeNode(st[0].item, st[0].kids)
    else TreeNode(st[0].item, st[0].kids + [CloseFrom(st[1..])])
  }

  /** The forest that the closed roots and the stack stand for. */
  function Close(f: seq<TreeNode>, st: seq<Frame>): seq<TreeNode>
  {
    if st == [] then f else f + [CloseFrom(st)]
  }

  /** Levels strictly increase from the bottom of the stack to its top. */
  predicate Increasing(st: seq<Frame>)
  {
    forall i, j :: 0 <= i < j < |st| ==> st[i].item.level < st[j].item.level
  }

  /** The stack after its top is popped: the top becomes the last child of
      the record below it. */
  function PopInto(st: seq<Frame>): (r: seq<Frame>)
    requires |st| >= 2
    ensures |r| == |st| - 1 && r[..|r| - 1] == st[..|st| - 2]
    ensures forall i :: 0 <= i < |r| ==> r[i].item == st[i].item
    ensures r[|r| - 1].kids == st[|st| - 2].kids + [TreeNode(st[|st| - 1].item, st[|st| - 1].kids)]
  {
    var top := st[|st| - 1];
    var below := st[|st| - 2];
    st[..|st| - 2] + [Frame(below.item, below.kids + [TreeNode(top.item, top.kids)])]
  }

  /** Popping the top of the stack changes nothing in the forest it stands
      for. */
  lemma {:induction false} PopKeepsClose(st: seq<Frame>)
    requires |st| >= 2
    ensures CloseFrom(PopInto(st)) == CloseFrom(st)
    decreases |st|
  {
    if |st| > 2 {
      PopKeepsClose(st[1..]);
      assert PopInto(st)[1..] == PopInto(st[1..]);
    }
  }

  /** Pushing `x` onto a stack whose records all have smaller levels and
      whose top has no child of smaller level than `x` is attaching `x`
      below the subtree the stack stands for. */
  lemma {:induction false} PushAttaches(st: seq<Frame>, x: Record)
    requires |st| > 0 && Increasing(st) && st[|st| - 1].item.level < x.level
    requires st[|st| - 1].kids == [] || st[|st| - 1].kids[|st[|st| - 1].kids| - 1].item.level >= x.level
    ensures CloseFrom(st + [Frame(x, [])]) == TreeNode(st[0].item, Attach(CloseFrom(st).children, x))
    decreases |st|
  {
    if |st| == 1 {
      assert (st + [Frame(x, [])])[1..] == [Frame(x, [])];
    } else {
      PushAttaches(st[1..], x);
      assert (st + [Frame(x, [])])[1..] == st[1..] + [Frame(x, [])];
      var kids := st[0].kids + [CloseFrom(st[1..])];
      assert kids[..|kids| - 1] == st[0].kids;
    }
  }

  /** The stack step for one record, in the forest the loop stands for:
      attaching the record. */
  lemma {:induction false} PushAttachesForest(f: seq<TreeNode>, st: seq<Frame>, x: Record)
    requires |st| > 0 && Increasing(st) && st[|st| - 1].item.level < x.level
    requires st[|st| - 1].kids == [] || st[|st| - 1].kids[|st[|st| - 1].kids| - 1].item.level >= x.level
    ensures Close(f, st + [Frame(x, [])]) == Attach(Close(f, st), x)
  {
    PushAttaches(st, x);
    var g := f + [CloseFrom(st)];
    assert g[..|g| - 1] == f;
  }

  /** Popping a record of at least the level of `x` keeps the forest, and
      leaves a stack whose top ends in a child of at least that level. */
  lemma PopStep(f: seq<TreeNode>, st: seq<Frame>, x: Record)
    requires |st| > 1 && Increasing(st) && st[|st| - 1].item.level >= x.level
    ensures Close(f, PopInto(st)) == Close(f, st) && Increasing(PopInto(st))
    ensures var r := PopInto(st);
            r[|r| - 1].kids != [] && r[|r| - 1].kids[|r[|r| - 1].kids| - 1].item.level >= x.level
  {
    PopKeepsClose(st);
  }

  /** The state of the building loop between records: the stack is
      increasing, its top has no children yet, and without a stack there
      is no forest yet. */
  ghost predicate Building(f: seq<TreeNode>, st: seq<Frame>)
  {
    Increasing(st) && (st == [] ==> f == []) && (st != [] ==> st[|st| - 1].kids == [])
  }

  /** Building one record more is attaching it. */
  lemma BuildNext(xs: seq<Record>, n: nat)
    requires n < |xs|
    ensures Build(xs[..n + 1]) == Attach(Build(xs[..n]), xs[n])
  {
    assert xs[..n + 1] == xs[..n] + [xs[n]];
    BuildSnoc(xs[..n], xs[n]);
  }

  /** Building one record more at the end is attaching it. */
  lemma BuildSnoc(xs: seq<Record>, x: Record)
    ensures Build(xs + [x]) == Attach(Build(xs), x)
  {
    assert (xs + [x])[..|xs|] == xs;
  }

  /** The state of the building loop while it pops for record `x`: the
      stack is increasing, and the record last closed (the last root, or
      the last child of the top) has at least the level of `x`. */
  ghost predicate Popping(f: seq<TreeNode>, st: seq<Frame>, x: Record)
  {
    Increasing(st) &&
    (st == [] ==> f == [] || f[|f| - 1].item.level >= x.level) &&
    (st != [] ==> st[|st| - 1].kids == [] || st[|st| - 1].kids[|st[|st| - 1].kids| - 1].item.level >= x.level)
  }

  /** Pushing `x` after popping every record of at least its level is
      attaching `x`, and keeps the stack increasing. */
  lemma PushStep(f: seq<TreeNode>, st: seq<Frame>, x: Record)
    requires Increasing(st)
    requires st == [] ==> f == [] || f[|f| - 1].item.level >= x.level
    requires st != [] ==> st[|st| - 1].item.level < x.level
    requires st != [] ==> st[|st| - 1].kids == [] || st[|st| - 1].kids[|st[|st| - 1].kids| - 1].item.level >= x.level
    ensures Close(f, st + [Frame(x, [])]) == Attach(Close(f, st), x)
    ensures Increasing(st + [Frame(x, [])])
  {
    if st == [] {
      assert st + [Frame(x, [])] == [Frame(x, [])];
      assert CloseFrom([Frame(x, [])]) == TreeNode(x, []);
      assert Attach(f, x) == f + [TreeNode(x, [])];
    } else {
      PushAttachesForest(f, st, x);
    }
  }

  // ---------------------------------------------------------------------
  // Examples
  // ---------------------------------------------------------------------

  /** Records of equal level become siblings. */
  lemma {:induction false} EqualLevelsAreSiblings(a: Record, b: Record)
    requires a.level == b.level
    ensures Build([a, b]) == [TreeNode(a, []), TreeNode(b, [])]
  {
    assert [a][..0] == [];
    assert Build([a]) == Attach([], a) == [TreeNode(a, [])];
    assert [a, b][..1] == [a];
    assert Build([a, b]) == Attach([TreeNode(a, [])], b);
  }

  /** A record more than one level deeper still becomes the child of the
      record before it, and a shallower one closes it. */
  lemma {:induction false} LevelJumpAttaches(a: Record, b: Record, c: Record)
    requires a.level + 1 < b.level && c.level == a.level
    ensures Build([a, b, c]) == [TreeNode(a, [TreeNode(b, [])]), TreeNode(c, [])]
  {
    var two := [TreeNode(a, [TreeNode(b, [])])];
    assert Build([a, b]) == two by {
      EqualLevelsAreSiblings(a, a);
      assert Build([a]) == [TreeNode(a, [])];
      BuildSnoc([a], b);
      assert [a] + [b] == [a, b];
      assert Attach([], b) == [TreeNode(b, [])];
      assert [TreeNode(a, [])][..0] == [];
    }
    BuildSnoc([a, b], c);
    assert [a, b] + [c] == [a, b, c];
  }


}
