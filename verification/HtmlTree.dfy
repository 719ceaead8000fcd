/**
 pkg/gctemplates/misc.go on nodes in the heap: the walk unlinks nodes and rewrites their text
 in place. A node is held by one link, its parent's `firstChild` or its predecessor's
 `nextSibling`; whoever holds the link stores back what the walk leaves of it.
 */
module HtmlTree {
  import opened HtmlTruncation

  datatype NodeType = TextNode | TagNode(kind: Kind)

  class Node {
    const nodeType: NodeType
    var data: string
    var firstChild: Node?
    var nextSibling: Node?
    ghost var Repr: set<Node>

    ghost predicate Valid()
      reads this, Repr
      decreases Repr
    {
      && this in Repr
      && (nodeType.TextNode? ==> firstChild == null)
      && (firstChild != null ==>
            firstChild in Repr && firstChild.Repr < Repr && this !in firstChild.Repr && firstChild.Valid())
      && (nextSibling != null ==>
            nextSibling in Repr && nextSibling.Repr < Repr && this !in nextSibling.Repr && nextSibling.Valid())
      && (firstChild != null && nextSibling != null ==> firstChild.Repr !! nextSibling.Repr)
    }

    /** The node, its descendants and its later siblings, as a value. */
    ghost function Tree(): Forest
      requires Valid()
      reads this, Repr
      decreases Repr, 0
    {
      if nodeType.TextNode? then Text(data, TreeOf(nextSibling))
      else Tag(nodeType.kind, TreeOf(firstChild), TreeOf(nextSibling))
    }

    /** `removeNextSiblings`, from the node on: none of them has a next sibling afterwards. */
    method RemoveNextSiblings()
      requires Valid()
      modifies Repr
      ensures Valid() && Repr <= old(Repr)
      ensures Tree() == Alone(old(Tree()))
      ensures nextSibling == null && firstChild == old(firstChild) && data == old(data)
      decreases Repr
    {
      if nextSibling != null {
        nextSibling.RemoveNextSiblings();
      }
      nextSibling := null;
      Repr := {this} + if firstChild != null then firstChild.Repr else {};
    }
  }

  ghost predicate ValidLink(n: Node?)
    reads n, if n != null then n.Repr else {}
  {
    n != null ==> n.Valid()
  }

  ghost function TreeOf(n: Node?): Forest
    requires ValidLink(n)
    reads n, if n != null then n.Repr else {}
    decreases if n != null then n.Repr else {}, 1
  {
    if n == null then Empty else n.Tree()
  }

  /** The nodes a link leads to. */
  ghost function Footprint(n: Node?): set<Node>
    reads n
  {
    if n != null then n.Repr else {}
  }

  /** The case of `truncateHTMLNodes` for nodes without text, up to the walk over the children. */
  method TruncateChildren(node: Node, charactersLeft: int, linesLeft: int)
    returns (charsLeft: int, lineLeft: int, panicked: bool)
    requires node.Valid() && node.nodeType.TagNode?
    modifies Footprint(node.firstChild), node`firstChild
    ensures var lines := if IsBr(node.nodeType.kind) then linesLeft - 1 else linesLeft;
            var run := Run(old(TreeOf(node.firstChild)), charactersLeft, lines);
            && (panicked <==> run.Panic?)
            && (!panicked ==>
                  && ValidLink(node.firstChild) && Footprint(node.firstChild) <= old(Footprint(node.firstChild))
                  && run == Ok(TreeOf(node.firstChild), charsLeft, lineLeft))
    ensures ValidLink(node.nextSibling) && TreeOf(node.nextSibling) == old(TreeOf(node.nextSibling))
    ensures Footprint(node.nextSibling) == old(Footprint(node.nextSibling))
    decreases node.Repr, 0
  {
    lineLeft := if IsBr(node.nodeType.kind) then linesLeft - 1 else linesLeft;
    var child;
    child, charsLeft, lineLeft, panicked := TruncateNodes(node.firstChild, charactersLeft, lineLeft);
    if !panicked {
      node.firstChild := child;
    }
  }

  /** The case of `truncateHTMLNodes` for text nodes. */
  method TruncateText(node: Node, charactersLeft: int) returns (charsLeft: int, panicked: bool)
    requires node.Valid()
    modifies node`data
    ensures ValidLink(node.nextSibling) && TreeOf(node.nextSibling) == old(TreeOf(node.nextSibling))
    ensures Footprint(node.nextSibling) == old(Footprint(node.nextSibling))
    ensures panicked <==> |old(node.data)| > charactersLeft && charactersLeft < 1
    ensures !panicked ==> node.data == Cut(old(node.data), charactersLeft) && charsLeft == charactersLeft - |node.data|
  {
    if |node.data| > charactersLeft {
      if charactersLeft < 1 {
        return charactersLeft, true;
      }
      node.data := node.data[0..charactersLeft - 1] + "...";
    }
    return charactersLeft - |node.data|, false;
  }

  /** The switch of `truncateHTMLNodes` and the walk over the later siblings. */
  method VisitNode(node: Node, charactersLeft: int, linesLeft: int)
    returns (charsLeft: int, lineLeft: int, panicked: bool)
    requires node.Valid()
    modifies node.Repr
    ensures var visit := Visit(old(node.Tree()), charactersLeft, linesLeft);
            && (panicked <==> visit.Panic?)
            && (!panicked ==>
                  node.Valid() && node.Repr == old(node.Repr) && visit == Ok(node.Tree(), charsLeft, lineLeft))
    decreases node.Repr, 1
  {
    lineLeft := linesLeft;
    if node.nodeType.TagNode? {
      charsLeft, lineLeft, panicked := TruncateChildren(node, charactersLeft, lineLeft);
    } else {
      charsLeft, panicked := TruncateText(node, charactersLeft);
    }
    if panicked {
      return;
    }
    var sibling;
    sibling, charsLeft, lineLeft, panicked := TruncateNodes(node.nextSibling, charsLeft, lineLeft);
    if !panicked {
      node.nextSibling := sibling;
    }
  }

  /**
   `truncateHTMLNodes`: `kept` is what the link to `node` must hold afterwards. When the walk
   panics nothing is promised about the nodes.
   */
  method TruncateNodes(node: Node?, charactersLeft: int, linesLeft: int)
    returns (kept: Node?, charsLeft: int, lineLeft: int, panicked: bool)
    requires ValidLink(node)
    modifies Footprint(node)
    ensures panicked <==> Run(old(TreeOf(node)), charactersLeft, linesLeft).Panic?
    ensures !panicked ==>
              && ValidLink(kept) && Footprint(kept) <= old(Footprint(node))
              && Run(old(TreeOf(node)), charactersLeft, linesLeft) == Ok(TreeOf(kept), charsLeft, lineLeft)
    decreases Footprint(node), 2
  {
    if node == null {
      return null, charactersLeft, linesLeft, false;
    }
    var spent := charactersLeft <= 0 || linesLeft <= 0;
    if spent {
      node.RemoveNextSiblings();
    }
    charsLeft, lineLeft, panicked := VisitNode(node, charactersLeft, linesLeft);
    kept := if spent then null else node;
  }
}
