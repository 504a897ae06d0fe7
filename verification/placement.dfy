/** Where `cite` puts a reference marker. Elements are modelled as a tree of
    tags; text nodes are not represented, so every child is an element child.
    Tags are lower case, as MooTools' `get('tag')` reports them. */
module Placement {

  datatype Node = Node(tag: string, children: seq<Node>)

  /** Tags that can host the marker of a block quotation. */
  predicate IsHostTag(tag: string)
  {
    tag == "p" || tag == "li" || tag == "dd"
  }

  /** The chain of last element children below `n`: its last child, that
      child's last child, and so on until a node without children. */
  function LastChain(n: Node): seq<Node>
    decreases n
  {
    if |n.children| == 0 then []
    else
      var last := n.children[|n.children| - 1];
      [last] + LastChain(last)
  }

  /** The node `depth` steps down the last-child chain (`n` itself at 0). */
  function ChainNode(n: Node, depth: nat): Node
    requires depth <= |LastChain(n)|
  {
    if depth == 0 then n else LastChain(n)[depth - 1]
  }

  /** The walk `cite` performs on a block quotation: step to the last element
      child until a `p`, `li` or `dd` is reached, or until there is no child
      left, in which case the block quotation itself hosts the marker. The
      result is the host's depth on the last-child chain: the first host-tagged
      node of the chain, not the deepest, or 0 when the chain has none. */
  method FindHost(el: Node) returns (depth: nat)
    ensures depth <= |LastChain(el)|
    ensures depth > 0 ==> IsHostTag(LastChain(el)[depth - 1].tag)
    ensures depth > 0 ==> forall j :: 0 <= j < depth - 1 ==> !IsHostTag(LastChain(el)[j].tag)
    ensures depth == 0 <==> forall j :: 0 <= j < |LastChain(el)| ==> !IsHostTag(LastChain(el)[j].tag)
  {
    var chain := LastChain(el);
    var child := el;
    var steps := 0;
    while true
      invariant steps <= |chain|
      invariant LastChain(child) == chain[steps..]
      invariant forall j :: 0 <= j < steps ==> !IsHostTag(chain[j].tag)
      decreases |chain| - steps
    {
      if |child.children| == 0 {
        assert steps == |chain|;
        return 0;
      }
      child := child.children[|child.children| - 1];
      steps := steps + 1;
      if IsHostTag(child.tag) {
        return steps;
      }
    }
  }

  /** Appends `marker` as the last child of the node `depth` steps down the
      last-child chain. */
  function AppendAt(n: Node, depth: nat, marker: Node): (r: Node)
    requires depth <= |LastChain(n)|
    ensures r.tag == n.tag
    ensures depth <= |LastChain(r)|
    decreases depth
  {
    if depth == 0 then Node(n.tag, n.children + [marker])
    else
      var k := |n.children| - 1;
      Node(n.tag, n.children[..k] + [AppendAt(n.children[k], depth - 1, marker)])
  }

  /** Removes the last child of the node `depth` steps down the last-child chain. */
  function RemoveAt(n: Node, depth: nat): Node
    decreases depth
  {
    if |n.children| == 0 then n
    else
      var k := |n.children| - 1;
      if depth == 0 then Node(n.tag, n.children[..k])
      else Node(n.tag, n.children[..k] + [RemoveAt(n.children[k], depth - 1)])
  }

  /** The number of elements in a tree. */
  function Size(n: Node): nat
    decreases n
  {
    1 + SizeAll(n.children)
  }

  function SizeAll(ns: seq<Node>): nat
    decreases ns
  {
    if |ns| == 0 then 0 else SizeAll(ns[..|ns| - 1]) + Size(ns[|ns| - 1])
  }

  /** Appending the marker along the chain adds exactly the marker's elements,
      gives the host exactly one more (last) child, and is undone by removing
      that child again: nothing else in the tree changes. */
  lemma AppendAtEffect(n: Node, depth: nat, marker: Node)
    requires depth <= |LastChain(n)|
    ensures var r := AppendAt(n, depth, marker);
            && Size(r) == Size(n) + Size(marker)
            && RemoveAt(r, depth) == n
            && ChainNode(r, depth) == Node(ChainNode(n, depth).tag, ChainNode(n, depth).children + [marker])
  {
    AppendAtSize(n, depth, marker);
    AppendAtUndone(n, depth, marker);
    AppendAtHost(n, depth, marker);
  }

  lemma {:induction false} AppendAtSize(n: Node, depth: nat, marker: Node)
    requires depth <= |LastChain(n)|
    ensures Size(AppendAt(n, depth, marker)) == Size(n) + Size(marker)
    decreases depth
  {
    var r := AppendAt(n, depth, marker);
    if depth == 0 {
      assert (n.children + [marker])[..|n.children|] == n.children;
    } else {
      var k := |n.children| - 1;
      var c := n.children[k];
      var c' := AppendAt(c, depth - 1, marker);
      AppendAtSize(c, depth - 1, marker);
      assert n.children == n.children[..k] + [c];
      SizeAllReplaceLast(n.children[..k], c, c');
    }
  }

  lemma {:induction false} AppendAtUndone(n: Node, depth: nat, marker: Node)
    requires depth <= |LastChain(n)|
    ensures RemoveAt(AppendAt(n, depth, marker), depth) == n
    decreases depth
  {
    var r := AppendAt(n, depth, marker);
    if depth == 0 {
      assert (n.children + [marker])[..|n.children|] == n.children;
    } else {
      var k := |n.children| - 1;
      var c := n.children[k];
      AppendAtUndone(c, depth - 1, marker);
      assert r.children[..k] == n.children[..k];
      assert n.children[..k] + [c] == n.children;
    }
  }

  lemma {:induction false} AppendAtHost(n: Node, depth: nat, marker: Node)
    requires depth <= |LastChain(n)|
    ensures var r := AppendAt(n, depth, marker);
            ChainNode(r, depth) == Node(ChainNode(n, depth).tag, ChainNode(n, depth).children + [marker])
    decreases depth
  {
    if depth > 0 {
      var r := AppendAt(n, depth, marker);
      var k := |n.children| - 1;
      var c := n.children[k];
      var c' := AppendAt(c, depth - 1, marker);
      AppendAtHost(c, depth - 1, marker);
      assert LastChain(r) == [c'] + LastChain(c');
      assert LastChain(n) == [c] + LastChain(c);
      assert ChainNode(r, depth) == ChainNode(c', depth - 1);
      assert ChainNode(n, depth) == ChainNode(c, depth - 1);
    }
  }

  /** Replacing the last of some nodes changes their total size accordingly. */
  lemma SizeAllReplaceLast(init: seq<Node>, c: Node, c': Node)
    ensures SizeAll(init + [c']) - Size(c') == SizeAll(init + [c]) - Size(c)
  {
    assert (init + [c])[..|init|] == init;
    assert (init + [c'])[..|init|] == init;
  }

  /** Inserts `marker` right after child `i` of `parent`. */
  function InsertAfter(parent: Node, i: nat, marker: Node): (r: Node)
    requires i < |parent.children|
    ensures r.tag == parent.tag
    ensures |r.children| == |parent.children| + 1
    ensures r.children[..i + 1] == parent.children[..i + 1]
    ensures r.children[i + 1] == marker
    ensures r.children[i + 2..] == parent.children[i + 1..]
  {
    var cs := parent.children;
    Node(parent.tag, cs[..i + 1] + [marker] + cs[i + 1..])
  }

  /** Places the marker for the cited element, child `i` of `parent`: inside
      a block quotation at the bottom of its host, next to any other element
      as its following sibling. The result is the new parent. */
  method Place(parent: Node, i: nat, marker: Node) returns (r: Node, depth: nat)
    requires i < |parent.children|
    ensures r.tag == parent.tag
    ensures parent.children[i].tag != "blockquote" ==>
              depth == 0 &&
              |r.children| == |parent.children| + 1 &&
              r.children[..i + 1] == parent.children[..i + 1] &&
              r.children[i + 1] == marker &&
              r.children[i + 2..] == parent.children[i + 1..]
    ensures parent.children[i].tag == "blockquote" ==>
              var el := parent.children[i];
              && |r.children| == |parent.children|
              && (forall j :: 0 <= j < |r.children| && j != i ==> r.children[j] == parent.children[j])
              && depth <= |LastChain(el)|
              && (depth > 0 ==> IsHostTag(ChainNode(el, depth).tag))
              && (depth > 0 ==> forall j :: 0 <= j < depth - 1 ==> !IsHostTag(LastChain(el)[j].tag))
              && (depth == 0 ==> forall j :: 0 <= j < |LastChain(el)| ==> !IsHostTag(LastChain(el)[j].tag))
              && r.children[i] == AppendAt(el, depth, marker)
              && ChainNode(r.children[i], depth)
                   == Node(ChainNode(el, depth).tag, ChainNode(el, depth).children + [marker])
  {
    var el := parent.children[i];
    if el.tag == "blockquote" {
      depth := FindHost(el);
      AppendAtEffect(el, depth, marker);
      r := Node(parent.tag, parent.children[i := AppendAt(el, depth, marker)]);
    } else {
      depth := 0;
      r := InsertAfter(parent, i, marker);
    }
  }
}
