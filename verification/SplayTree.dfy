/**
 The shapes that occur while a splay tree is being rearranged, and what the pointers say about them.
 */
module SplayTree {

  class Node {
    const key: int
    var left: Node?
    var right: Node?

    constructor (key: int)
      ensures this.key == key && left == null && right == null
    {
      this.key := key;
      left, right := null, null;
    }
  }

  // ---- Trees ----

  datatype Tree = Empty | Fork(left: Tree, node: Node, right: Tree)

  /** The nodes from left to right. */
  function Nodes(t: Tree): seq<Node> {
    match t
    case Empty => []
    case Fork(l, n, r) => Nodes(l) + [n] + Nodes(r)
  }

  function NodeSet(t: Tree): set<Node> {
    match t
    case Empty => {}
    case Fork(l, n, r) => NodeSet(l) + {n} + NodeSet(r)
  }

  /** The pointers below `p` form the tree `t`. */
  ghost predicate Rep(p: Node?, t: Tree)
    reads NodeSet(t)
  {
    match t
    case Empty => p == null
    case Fork(l, n, r) => p == n && Rep(n.left, l) && Rep(n.right, r)
  }

  predicate Sorted(s: seq<Node>) {
    forall i, j :: 0 <= i < j < |s| ==> s[i].key < s[j].key
  }

  // ---- Spines: trees with a hole at the end of their left or right edge ----

  datatype Side = Left | Right

  function Other(d: Side): Side { if d.Left? then Right else Left }

  function Kid(n: Node, d: Side): Node?
    reads n
  {
    if d.Left? then n.left else n.right
  }

  /** A path of nodes, each the `d` child of the one above, with their subtrees on the other side. */
  datatype Spine = Top | Frame(up: Spine, node: Node, side: Tree)

  /** The last node of a spine that hangs below the header `h`. */
  function Last(h: Node, s: Spine): Node {
    if s.Top? then h else s.node
  }

  function SpineSet(s: Spine): set<Node> {
    match s
    case Top => {}
    case Frame(up, n, t) => SpineSet(up) + {n} + NodeSet(t)
  }

  /** The nodes from left to right; the hole is at the end for `Right`, at the start for `Left`. */
  function SpineNodes(s: Spine, d: Side): seq<Node> {
    match s
    case Top => []
    case Frame(up, n, t) => if d.Right? then SpineNodes(up, d) + (Nodes(t) + [n]) else [n] + Nodes(t) + SpineNodes(up, d)
  }

  /** The last node of the spine is reached: from the header pointer or from the node above. */
  ghost predicate Reaches(first: Node?, s: Spine, d: Side)
    requires s.Frame?
    reads if s.up.Frame? then {s.up.node} else {}
  {
    if s.up.Top? then first == s.node else Kid(s.up.node, d) == s.node
  }

  /** The pointers from `first` on form the spine; the pointer at the hole is not looked at. */
  ghost predicate RepSpine(first: Node?, s: Spine, d: Side)
    reads SpineSet(s)
  {
    match s
    case Top => true
    case Frame(up, n, t) =>
      assert up.Frame? ==> up.node in SpineSet(up);
      Rep(Kid(n, Other(d)), t) && Reaches(first, s, d) && RepSpine(first, up, d)
  }

  /** The tree that results when the hole is filled. */
  function Plug(s: Spine, d: Side, t: Tree): Tree {
    match s
    case Top => t
    case Frame(up, n, side) => Plug(up, d, if d.Right? then Fork(side, n, t) else Fork(t, n, side))
  }

  lemma {:induction false} PlugNodes(s: Spine, d: Side, t: Tree)
    ensures Nodes(Plug(s, d, t)) == if d.Right? then SpineNodes(s, d) + Nodes(t) else Nodes(t) + SpineNodes(s, d)
  {
    match s
    case Top =>
    case Frame(up, n, side) =>
      PlugNodes(up, d, if d.Right? then Fork(side, n, t) else Fork(t, n, side));
  }

  lemma {:induction false} PlugSet(s: Spine, d: Side, t: Tree)
    ensures NodeSet(Plug(s, d, t)) == SpineSet(s) + NodeSet(t)
  {
    match s
    case Top =>
    case Frame(up, n, side) =>
      PlugSet(up, d, if d.Right? then Fork(side, n, t) else Fork(t, n, side));
  }

  /** Once the pointer at the hole leads to `t`, the pointer of the header leads to the whole tree. */
  lemma {:induction false} PlugRep(h: Node, s: Spine, d: Side, t: Tree)
    requires RepSpine(Kid(h, d), s, d) && Rep(Kid(Last(h, s), d), t)
    ensures Rep(Kid(h, d), Plug(s, d, t))
  {
    match s
    case Top =>
    case Frame(up, n, side) =>
      PlugRep(h, up, d, if d.Right? then Fork(side, n, t) else Fork(t, n, side));
  }

  function SetOf(s: seq<Node>): set<Node> { set x | x in s }

  lemma {:induction false} TreeSet(t: Tree)
    ensures NodeSet(t) == SetOf(Nodes(t))
  {
    match t
    case Empty =>
    case Fork(l, n, r) =>
      TreeSet(l);
      TreeSet(r);
  }

  lemma {:induction false} SpineSetOf(s: Spine, d: Side)
    ensures SpineSet(s) == SetOf(SpineNodes(s, d))
  {
    match s
    case Top =>
    case Frame(up, n, t) =>
      SpineSetOf(up, d);
      TreeSet(t);
  }

  // ---- Nodes of different parts are different ----

  lemma SpineApart(s: Spine, d: Side)
    requires s.Frame? && Sorted(SpineNodes(s, d))
    ensures Sorted(SpineNodes(s.up, d)) && Sorted(Nodes(s.side))
    ensures s.node !in NodeSet(s.side) && s.node !in SpineSet(s.up)
  {
    var up, n, t := s.up, s.node, s.side;
    TreeSet(t);
    SpineSetOf(up, d);
    if d.Right? {
      SortedParts(SpineNodes(up, d), Nodes(t) + [n]);
      SortedParts(Nodes(t), [n]);
    } else {
      SortedParts([n] + Nodes(t), SpineNodes(up, d));
      SortedParts([n], Nodes(t));
    }
  }

  lemma SortedParts(a: seq<Node>, b: seq<Node>)
    ensures Sorted(a + b) <==> Sorted(a) && Sorted(b) && forall x, y :: x in a && y in b ==> x.key < y.key
  {
    var s := a + b;
    if Sorted(s) {
      assert forall i :: 0 <= i < |a| ==> a[i] == s[i];
      assert forall i :: 0 <= i < |b| ==> b[i] == s[|a| + i];
    }
  }

  lemma SeqsApart(a: seq<Node>, b: seq<Node>)
    requires Sorted(a + b)
    ensures SetOf(a) !! SetOf(b) && Sorted(a) && Sorted(b)
  {
    SortedParts(a, b);
  }
}
