/** The repository utilities of a tree: building the nested forest of a
    hierarchy query result, rendering it as nested lists, and the argument
    handling of the children hierarchy. */
module RepositoryUtils {
  import opened Common
  import opened TreeBuilder

  /** An option applied to a list of sibling nodes: a literal string or a
      function of the list. */
  datatype ListDecorator = ListLiteral(text: string) | ListFunction(f: seq<TreeNode> -> string)

  /** An option applied to one node: a literal string or a function of the
      node. */
  datatype NodeDecorator = NodeLiteral(text: string) | NodeFunction(f: TreeNode -> string)

  /** The caller's options of `buildTree`; an absent entry takes its
      default. */
  datatype Options = Options(
    decorate: Option<bool>,
    rootOpen: Option<ListDecorator>,
    rootClose: Option<ListDecorator>,
    childOpen: Option<NodeDecorator>,
    childClose: Option<NodeDecorator>,
    nodeDecorator: Option<TreeNode -> string>)

  /** The options with every entry resolved. */
  datatype Style = Style(
    rootOpen: ListDecorator,
    rootClose: ListDecorator,
    childOpen: NodeDecorator,
    childClose: NodeDecorator,
    nodeLabel: TreeNode -> string)

  /** What `buildTree` returns: the nested forest, or its rendering. */
  datatype TreeOutput = Nested(forest: seq<TreeNode>) | Html(text: string)

  /** The node argument of `childrenHierarchy`: none, an object of another
      class, or an entity of the tree class with its identifier. */
  datatype NodeArg = NoNode | OtherObject | TreeEntity(id: Option<nat>)

  function ListText(d: ListDecorator, tree: seq<TreeNode>): string
  {
    match d
    case ListLiteral(text) => text
    case ListFunction(f) => f(tree)
  }

  function NodeText(d: NodeDecorator, node: TreeNode): string
  {
    match d
    case NodeLiteral(text) => text
    case NodeFunction(f) => f(node)
  }

  /** The field the default node decorator shows: `title` when the tree
      class has one, else `name`; without either it is refused. */
  function RepresentationField(hasTitle: bool, hasName: bool): (r: Result<string>)
    ensures r.Success? <==> hasTitle || hasName
    ensures r.Success? ==> r.value == (if hasTitle then "title" else "name")
    ensures r.Failure? ==> r.error == InvalidArgumentException(NoRepresentationFieldMessage)
  {
    if hasTitle then Success("title")
    else if hasName then Success("name")
    else Failure(InvalidArgumentException(NoRepresentationFieldMessage))
  }

  /** The default node decorator: the value of `field` in the node's
      record (empty when the record has no such column). */
  function FieldLabel(field: string): TreeNode -> string
  {
    (node: TreeNode) => if field in node.item.columns then node.item.columns[field] else ""
  }

  /** The options merged over the defaults: `<ul>`, `</ul>`, `<li>`,
      `</li>`, and the given node decorator or else `fallback`. */
  function Merge(options: Options, fallback: TreeNode -> string): Style
  {
    Style(
      if options.rootOpen.Some? then options.rootOpen.value else ListLiteral("<ul>"),
      if options.rootClose.Some? then options.rootClose.value else ListLiteral("</ul>"),
      if options.childOpen.Some? then options.childOpen.value else NodeLiteral("<li>"),
      if options.childClose.Some? then options.childClose.value else NodeLiteral("</li>"),
      if options.nodeDecorator.Some? then options.nodeDecorator.value else fallback)
  }

  /** The recursive renderer: a list opens and closes with the root
      decorators; each node is its opening, its label, its rendered
      children when it has any, and its closing. */
  function Render(s: Style, tree: seq<TreeNode>): string
    decreases tree, 1
  {
    ListText(s.rootOpen, tree) + RenderItems(s, tree) + ListText(s.rootClose, tree)
  }

  function RenderItems(s: Style, tree: seq<TreeNode>): string
    decreases tree, 0
  {
    if tree == [] then ""
    else
      var node := tree[|tree| - 1];
      RenderItems(s, tree[..|tree| - 1]) +
      NodeText(s.childOpen, node) + s.nodeLabel(node) +
      (if |node.children| > 0 then Render(s, node.children) else "") +
      NodeText(s.childClose, node)
  }

  // ---------------------------------------------------------------------
  // The rendering as a sequence of pieces
  // ---------------------------------------------------------------------

  /** One piece of the rendered output. */
  datatype Piece =
    | OpenList(tree: seq<TreeNode>)
    | CloseList(tree: seq<TreeNode>)
    | OpenItem(node: TreeNode)
    | Label(node: TreeNode)
    | CloseItem(node: TreeNode)

  /** The pieces of a rendered list, in output order. */
  function Pieces(tree: seq<TreeNode>): seq<Piece>
    decreases tree, 1
  {
    [OpenList(tree)] + ItemPieces(tree) + [CloseList(tree)]
  }

  function ItemPieces(tree: seq<TreeNode>): seq<Piece>
    decreases tree, 0
  {
    if tree == [] then []
    else
      var node := tree[|tree| - 1];
      ItemPieces(tree[..|tree| - 1]) + [OpenItem(node), Label(node)] +
      (if |node.children| > 0 then Pieces(node.children) else []) + [CloseItem(node)]
  }

  function PieceText(s: Style, p: Piece): string
  {
    match p
    case OpenList(tree) => ListText(s.rootOpen, tree)
    case CloseList(tree) => ListText(s.rootClose, tree)
    case OpenItem(node) => NodeText(s.childOpen, node)
    case Label(node) => s.nodeLabel(node)
    case CloseItem(node) => NodeText(s.childClose, node)
  }

  function Concat(s: Style, ps: seq<Piece>): string
  {
    if ps == [] then "" else Concat(s, ps[..|ps| - 1]) + PieceText(s, ps[|ps| - 1])
  }

  /** The records labelled by the pieces, in output order. */
  function Labels(ps: seq<Piece>): seq<Record>
  {
    if ps == [] then []
    else Labels(ps[..|ps| - 1]) + (if ps[|ps| - 1].Label? then [ps[|ps| - 1].node.item] else [])
  }

  /** The number of item openings, and of item closings, among the pieces. */
  function Opened(ps: seq<Piece>): nat
  {
    if ps == [] then 0 else Opened(ps[..|ps| - 1]) + (if ps[|ps| - 1].OpenItem? then 1 else 0)
  }

  function Closed(ps: seq<Piece>): nat
  {
    if ps == [] then 0 else Closed(ps[..|ps| - 1]) + (if ps[|ps| - 1].CloseItem? then 1 else 0)
  }

  lemma {:induction false} ConcatAppend(s: Style, a: seq<Piece>, b: seq<Piece>)
    ensures Concat(s, a + b) == Concat(s, a) + Concat(s, b)
    decreases |b|
  {
    if b != [] {
      ConcatAppend(s, a, b[..|b| - 1]);
      assert (a + b)[..|a + b| - 1] == a + b[..|b| - 1];
    } else {
      assert a + b == a;
    }
  }

  lemma {:induction false} CountsAppend(a: seq<Piece>, b: seq<Piece>)
    ensures Labels(a + b) == Labels(a) + Labels(b)
    ensures Opened(a + b) == Opened(a) + Opened(b)
    ensures Closed(a + b) == Closed(a) + Closed(b)
    decreases |b|
  {
    if b != [] {
      CountsAppend(a, b[..|b| - 1]);
      assert (a + b)[..|a + b| - 1] == a + b[..|b| - 1];
    } else {
      assert a + b == a;
    }
  }

  /** The renderer writes out the pieces of the list, one after the other. */
  lemma {:induction false} RenderIsPieces(s: Style, tree: seq<TreeNode>)
    ensures Render(s, tree) == Concat(s, Pieces(tree))
    decreases tree, 1
  {
    RenderItemsArePieces(s, tree);
    ConcatAppend(s, [OpenList(tree)], ItemPieces(tree));
    ConcatAppend(s, [OpenList(tree)] + ItemPieces(tree), [CloseList(tree)]);
    assert Concat(s, [OpenList(tree)]) == ListText(s.rootOpen, tree) by {
      assert [OpenList(tree)][..0] == [];
    }
    assert Concat(s, [CloseList(tree)]) == ListText(s.rootClose, tree) by {
      assert [CloseList(tree)][..0] == [];
    }
  }

  lemma ConcatOne(s: Style, p: Piece)
    ensures Concat(s, [p]) == PieceText(s, p)
  {
    assert [p][..0] == [];
  }

  /** The text of one node's pieces placed after `front`. */
  lemma ConcatItem(s: Style, front: seq<Piece>, node: TreeNode, inner: seq<Piece>)
    ensures Concat(s, front + [OpenItem(node), Label(node)] + inner + [CloseItem(node)]) ==
            Concat(s, front) + NodeText(s.childOpen, node) + s.nodeLabel(node) + Concat(s, inner) + NodeText(s.childClose, node)
  {
    var a := front + [OpenItem(node)];
    var b := a + [Label(node)];
    var c := b + inner;
    assert front + [OpenItem(node), Label(node)] + inner + [CloseItem(node)] == c + [CloseItem(node)];
    ConcatAppend(s, front, [OpenItem(node)]);
    ConcatOne(s, OpenItem(node));
    ConcatAppend(s, a, [Label(node)]);
    ConcatOne(s, Label(node));
    ConcatAppend(s, b, inner);
    ConcatAppend(s, c, [CloseItem(node)]);
    ConcatOne(s, CloseItem(node));
  }

  /** The labels and counts of one node's pieces placed after `front`. */
  lemma CountsItem(front: seq<Piece>, node: TreeNode, inner: seq<Piece>)
    ensures Labels(front + [OpenItem(node), Label(node)] + inner + [CloseItem(node)]) ==
            Labels(front) + [node.item] + Labels(inner)
    ensures Opened(front + [OpenItem(node), Label(node)] + inner + [CloseItem(node)]) == Opened(front) + 1 + Opened(inner)
    ensures Closed(front + [OpenItem(node), Label(node)] + inner + [CloseItem(node)]) == Closed(front) + 1 + Closed(inner)
  {
    var pair := [OpenItem(node), Label(node)];
    CountsAppend(front, pair);
    CountsAppend(front + pair, inner);
    CountsAppend(front + pair + inner, [CloseItem(node)]);
    assert pair[..1] == [OpenItem(node)];
    assert pair[..1][..0] == [];
    assert [CloseItem(node)][..0] == [];
  }

  lemma {:induction false} RenderItemsArePieces(s: Style, tree: seq<TreeNode>)
    ensures RenderItems(s, tree) == Concat(s, ItemPieces(tree))
    decreases tree, 0
  {
    if tree != [] {
      var node := tree[|tree| - 1];
      var inner := if |node.children| > 0 then Pieces(node.children) else [];
      RenderItemsArePieces(s, tree[..|tree| - 1]);
      if |node.children| > 0 {
        RenderIsPieces(s, node.children);
      }
      ConcatItem(s, ItemPieces(tree[..|tree| - 1]), node, inner);
    }
  }

  /** The labels of the rendering come in pre-order, and every node is
      opened and closed exactly once. */
  lemma {:induction false} PiecesFollowPreOrder(tree: seq<TreeNode>)
    ensures Labels(Pieces(tree)) == PreOrder(tree)
    ensures Opened(Pieces(tree)) == |PreOrder(tree)| && Closed(Pieces(tree)) == |PreOrder(tree)|
    decreases tree, 1
  {
    ItemPiecesFollowPreOrder(tree);
    CountsAppend([OpenList(tree)], ItemPieces(tree));
    CountsAppend([OpenList(tree)] + ItemPieces(tree), [CloseList(tree)]);
    assert [OpenList(tree)][..0] == [];
    assert [CloseList(tree)][..0] == [];
  }

  lemma {:induction false} ItemPiecesFollowPreOrder(tree: seq<TreeNode>)
    ensures Labels(ItemPieces(tree)) == PreOrder(tree)
    ensures Opened(ItemPieces(tree)) == |PreOrder(tree)| && Closed(ItemPieces(tree)) == |PreOrder(tree)|
    decreases tree, 0
  {
    if tree != [] {
      var node := tree[|tree| - 1];
      var inner := if |node.children| > 0 then Pieces(node.children) else [];
      ItemPiecesFollowPreOrder(tree[..|tree| - 1]);
      if |node.children| > 0 {
        PiecesFollowPreOrder(node.children);
      } else {
        assert PreOrder(node.children) == [];
      }
      CountsItem(ItemPieces(tree[..|tree| - 1]), node, inner);
    }
  }

  /** Rendering the forest built from a list of records shows the records'
      labels in the order of the list, with one opening and one closing
      per record. */
  lemma {:induction false} RenderedInInputOrder(s: Style, xs: seq<Record>)
    ensures Render(s, Build(xs)) == Concat(s, Pieces(Build(xs)))
    ensures Labels(Pieces(Build(xs))) == xs
    ensures Opened(Pieces(Build(xs))) == |xs| && Closed(Pieces(Build(xs))) == |xs|
  {
    RenderIsPieces(s, Build(xs));
    PiecesFollowPreOrder(Build(xs));
    BuildRoundTrip(xs);
  }

  /** What `buildTree` returns for a built forest: the forest itself
      unless decoration is asked for; the empty string for an empty
      forest; otherwise the rendering, which the default node decorator
      refuses when the tree class has neither a `title` nor a `name`
      field. */
  function BuildTreeOutput(nested: seq<TreeNode>, options: Options, hasTitle: bool, hasName: bool): (r: Result<TreeOutput>)
    ensures (options.decorate.None? || !options.decorate.value) ==> r == Success(Nested(nested))
    ensures options.decorate == Some(true) && nested == [] ==> r == Success(Html(""))
    ensures r.Failure? <==>
              options.decorate == Some(true) && nested != [] && options.nodeDecorator.None? && !hasTitle && !hasName
    ensures r.Failure? ==> r.error == InvalidArgumentException(NoRepresentationFieldMessage)
  {
    if options.decorate.None? || !options.decorate.value then
      Success(Nested(nested))
    else if nested == [] then
      Success(Html(""))
    else
      var field := RepresentationField(hasTitle, hasName);
      if options.nodeDecorator.None? && field.Failure? then
        Failure(field.error)
      else
        var fallback := if field.Success? then FieldLabel(field.value) else FieldLabel("");
        Success(Html(Render(Merge(options, fallback), nested)))
  }

  /** One pop of the building loop: the top record is closed into the
      record below it, or into the forest when it is the last one. */
  method PopOne(nestedTree: seq<TreeNode>, stack: seq<Frame>, x: Record)
    returns (forest: seq<TreeNode>, open: seq<Frame>)
    requires |stack| > 0 && Popping(nestedTree, stack, x) && stack[|stack| - 1].item.level >= x.level
    ensures Close(forest, open) == Close(nestedTree, stack)
    ensures Popping(forest, open, x) && |open| == |stack| - 1
  {
    var top := stack[|stack| - 1];
    if |stack| == 1 {
      forest, open := nestedTree + [TreeNode(top.item, top.kids)], [];
    } else {
      PopStep(nestedTree, stack, x);
      forest, open := nestedTree, PopInto(stack);
    }
  }

  /** The popping half of one step of the building loop: records on the
      stack of at least the level of `x` are closed, each into the record
      below it, the bottom one into the forest. */
  method PopClosed(nestedTree: seq<TreeNode>, stack: seq<Frame>, x: Record)
    returns (forest: seq<TreeNode>, open: seq<Frame>)
    requires Increasing(stack)
    requires stack == [] ==> nestedTree == []
    requires stack != [] ==> stack[|stack| - 1].kids == []
    ensures Close(forest, open) == Close(nestedTree, stack)
    ensures Increasing(open) && |open| <= |stack|
    ensures open == [] ==> forest == [] || forest[|forest| - 1].item.level >= x.level
    ensures open != [] ==> open[|open| - 1].item.level < x.level
    ensures open != [] ==> open[|open| - 1].kids == [] || open[|open| - 1].kids[|open[|open| - 1].kids| - 1].item.level >= x.level
  {
    forest, open := nestedTree, stack;
    var l := |open|;
    while l > 0 && open[l - 1].item.level >= x.level
      invariant l == |open| <= |stack|
      invariant Close(forest, open) == Close(nestedTree, stack)
      invariant Popping(forest, open, x)
    {
      forest, open := PopOne(forest, open, x);
      l := l - 1;
    }
  }

  /** One step of the building loop: records of at least the level of
      `x` are popped, then `x` is placed as the last child of the new top,
      or as a new root when the stack is empty, and pushed. */
  method PlaceRecord(nestedTree: seq<TreeNode>, stack: seq<Frame>, x: Record)
    returns (forest: seq<TreeNode>, open: seq<Frame>)
    requires Building(nestedTree, stack)
    ensures Close(forest, open) == Attach(Close(nestedTree, stack), x)
    ensures Building(forest, open)
  {
    forest, open := PopClosed(nestedTree, stack, x);
    PushStep(forest, open, x);
    open := open + [Frame(x, [])];
  }

  /** The utilities of one tree class: the key holding a node's children,
      and whether the class has a `title` or a `name` field. */
  class RepositoryUtils {
    var childrenIndex: string
    const hasTitle: bool
    const hasName: bool

    constructor (hasTitle: bool, hasName: bool)
      ensures childrenIndex == "__children"
      ensures this.hasTitle == hasTitle && this.hasName == hasName
    {
      childrenIndex := "__children";
      this.hasTitle := hasTitle;
      this.hasName := hasName;
    }

    method SetChildrenIndex(childrenIndex: string)
      modifies this`childrenIndex
      ensures this.childrenIndex == childrenIndex && GetChildrenIndex() == childrenIndex
    {
      this.childrenIndex := childrenIndex;
    }

    function GetChildrenIndex(): (index: string)
      reads this
      ensures index == childrenIndex
    {
      childrenIndex
    }

    /** Builds the nested forest of records ordered depth first, in one
        pass over a stack of the records still open for children. */
    method BuildTreeArray(nodes: seq<Record>) returns (nestedTree: seq<TreeNode>)
      ensures nestedTree == Build(Strip(nodes, childrenIndex))
    {
      var items := Strip(nodes, childrenIndex);
      nestedTree := [];
      if |items| > 0 {
        var stack: seq<Frame> := [];
        var n := 0;
        while n < |items|
          invariant 0 <= n <= |items|
          invariant Close(nestedTree, stack) == Build(items[..n])
          invariant Building(nestedTree, stack)
        {
          BuildNext(items, n);
          nestedTree, stack := PlaceRecord(nestedTree, stack, items[n]);
          n := n + 1;
        }
        assert items[..n] == items;
        nestedTree := Close(nestedTree, stack);
      }
    }

    /** The forest of `nodes`, or its rendering with the options merged
        over the defaults. */
    method BuildTree(nodes: seq<Record>, options: Options) returns (result: Result<TreeOutput>)
      ensures result == BuildTreeOutput(Build(Strip(nodes, childrenIndex)), options, hasTitle, hasName)
    {
      var nestedTree := BuildTreeArray(nodes);
      if options.decorate.None? || !options.decorate.value {
        return Success(Nested(nestedTree));
      }
      if |nestedTree| == 0 {
        return Success(Html(""));
      }
      var field := RepresentationField(hasTitle, hasName);
      if options.nodeDecorator.None? && field.Failure? {
        return Failure(field.error);
      }
      var fallback := if field.Success? then FieldLabel(field.value) else FieldLabel("");
      return Success(Html(Render(Merge(options, fallback), nestedTree)));
    }

    /** The hierarchy below `node` (of all roots when there is none): a
        tree entity without an identifier is refused, and no node asks for
        the roots themselves to be included; the query's result is then
        built into a tree. */
    method ChildrenHierarchy(node: NodeArg, direct: bool, options: Options, includeNode: bool,
                             getNodesHierarchy: (NodeArg, bool, Options, bool) -> seq<Record>)
      returns (result: Result<TreeOutput>)
      ensures node == TreeEntity(None) ==> result == Failure(InvalidArgumentException(NotManagedMessage))
      ensures node != TreeEntity(None) ==>
                result == BuildTreeOutput(
                  Build(Strip(getNodesHierarchy(node, direct, options, node.NoNode? || includeNode), childrenIndex)),
                  options, hasTitle, hasName)
    {
      var withRoots := includeNode;
      if node != NoNode {
        if node.TreeEntity? && node.id.None? {
          return Failure(InvalidArgumentException(NotManagedMessage));
        }
      } else {
        withRoots := true;
      }
      var nodes := getNodesHierarchy(node, direct, options, withRoots);
      result := BuildTree(nodes, options);
    }
  }
}
