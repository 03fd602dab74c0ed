/**
 The splay tree operations on pointers.
 */
module SplayHead {
  import opened SplayTree
  import opened SplayFunction

  // ---- The parts of a sorted tree do not share nodes ----

  lemma ForkApart(t: Tree)
    requires t.Fork? && Sorted(Nodes(t))
    ensures Sorted(Nodes(t.left)) && Sorted(Nodes(t.right))
    ensures NodeSet(t.left) !! NodeSet(t.right) && t.node !in NodeSet(t.left) && t.node !in NodeSet(t.right)
  {
    TreeSet(t.left);
    TreeSet(t.right);
    SeqsApart(Nodes(t.left) + [t.node], Nodes(t.right));
    SeqsApart(Nodes(t.left), [t.node]);
    assert SetOf(Nodes(t.left)) <= SetOf(Nodes(t.left) + [t.node]) && t.node in SetOf(Nodes(t.left) + [t.node]);
    assert t.node in SetOf([t.node]);
  }

  lemma PartsApart(p: Parts)
    requires Sorted(AllNodes(p))
    ensures SpineSet(p.left) !! NodeSet(p.rest) && SpineSet(p.left) !! SpineSet(p.right) && NodeSet(p.rest) !! SpineSet(p.right)
  {
    var a, b, c := SpineNodes(p.left, Right), Nodes(p.rest), SpineNodes(p.right, Left);
    SpineSetOf(p.left, Right);
    TreeSet(p.rest);
    SpineSetOf(p.right, Left);
    assert a + b + c == a + (b + c);
    SeqsApart(a, b + c);
    SeqsApart(b, c);
    assert SetOf(b) <= SetOf(b + c) && SetOf(c) <= SetOf(b + c);
  }

  /** No node is in two places. */
  predicate Apart(p: Parts) {
    && SpineSet(p.left) !! NodeSet(p.rest) && SpineSet(p.left) !! SpineSet(p.right) && NodeSet(p.rest) !! SpineSet(p.right)
    && (p.rest.Fork? ==> ApartFork(p.rest))
    && (p.left.Frame? ==> p.left.node !in NodeSet(p.left.side) && p.left.node !in SpineSet(p.left.up))
    && (p.right.Frame? ==> p.right.node !in NodeSet(p.right.side) && p.right.node !in SpineSet(p.right.up))
  }

  predicate ApartFork(t: Tree)
    requires t.Fork?
  {
    t.node !in NodeSet(t.left) && t.node !in NodeSet(t.right) && NodeSet(t.left) !! NodeSet(t.right)
  }

  lemma AllApart(p: Parts)
    requires Sorted(AllNodes(p))
    ensures Apart(p) && Sorted(Nodes(p.rest))
  {
    SortedRest(p);
    PartsApart(p);
    if p.rest.Fork? {
      ForkApart(p.rest);
    }
    if p.left.Frame? {
      SpineApart(p.left, Right);
    }
    if p.right.Frame? {
      SpineApart(p.right, Left);
    }
  }

  class Head {
    var root: Node?
    ghost var tree: Tree
    ghost var nodes: set<Node>

    ghost predicate Valid()
      reads this, NodeSet(tree)
    {
      Rep(root, tree) && Sorted(Nodes(tree)) && nodes == NodeSet(tree)
    }

    ghost method SetTree(t: Tree, s: set<Node>)
      requires Rep(root, t) && s == NodeSet(t)
      modifies `tree, `nodes
      ensures tree == t && nodes == s && Rep(root, tree)
    {
      tree, nodes := t, s;
    }

    // ---- The macros ----

    /** The tree in three parts: a spine below the right pointer of the header, the rest below the
        root, and a spine below the left pointer of the header. */
    ghost predicate Open(h: Node, p: Parts)
      reads this, h, AllSet(p)
    {
      && Rep(root, p.rest) && RepSpine(h.right, p.left, Right) && RepSpine(h.left, p.right, Left)
      && h !in SpineSet(p.left) && h !in NodeSet(p.rest) && h !in SpineSet(p.right)
    }

    method RotateRight(tmp: Node, ghost h: Node, ghost p: Parts)
      requires Open(h, p) && Apart(p) && p.rest.Fork? && p.rest.left.Fork? && ApartFork(p.rest.left) && tmp == p.rest.left.node
      modifies this`root, NodeSet(p.rest)
      ensures Open(h, p.(rest := RotatedRight(p.rest)))
    {
      ghost var t := p.rest;
      assert Rep(root.left, t.left) && Rep(tmp.left, t.left.left) && Rep(tmp.right, t.left.right) && Rep(root.right, t.right);
      root.left := tmp.right;
      tmp.right := root;
      root := tmp;
    }

    method RotateLeft(tmp: Node, ghost h: Node, ghost p: Parts)
      requires Open(h, p) && Apart(p) && p.rest.Fork? && p.rest.right.Fork? && ApartFork(p.rest.right) && tmp == p.rest.right.node
      modifies this`root, NodeSet(p.rest)
      ensures Open(h, p.(rest := RotatedLeft(p.rest)))
    {
      ghost var t := p.rest;
      assert Rep(root.right, t.right) && Rep(tmp.left, t.right.left) && Rep(tmp.right, t.right.right) && Rep(root.left, t.left);
      root.right := tmp.left;
      tmp.left := root;
      root := tmp;
    }

    /** Moves the root and its right subtree to the right part. */
    method LinkLeft(h: Node, tmp0: Node, ghost p: Parts) returns (tmp: Node)
      requires Open(h, p) && Apart(p) && p.rest.Fork? && tmp0 == Last(h, p.right)
      modifies this`root, tmp0
      ensures Open(h, Parts(p.left, p.rest.left, Frame(p.right, p.rest.node, p.rest.right))) && tmp == p.rest.node
    {
      tmp0.left := root;
      tmp := root;
      root := root.left;
    }

    /** Moves the root and its left subtree to the left part. */
    method LinkRight(h: Node, tmp0: Node, ghost p: Parts) returns (tmp: Node)
      requires Open(h, p) && Apart(p) && p.rest.Fork? && tmp0 == Last(h, p.left)
      modifies this`root, tmp0
      ensures Open(h, Parts(Frame(p.left, p.rest.node, p.rest.left), p.rest.right, p.right)) && tmp == p.rest.node
    {
      tmp0.right := root;
      tmp := root;
      root := root.right;
    }

    method FillLeft(h: Node, left: Node, ghost p: Parts)
      requires Open(h, p) && Apart(p) && p.rest.Fork? && left == Last(h, p.left)
      modifies left
      ensures Rep(h.right, Plug(p.left, Right, p.rest.left)) && Rep(root, p.rest) && RepSpine(h.left, p.right, Left)
    {
      left.right := root.left;
      PlugRep(h, p.left, Right, p.rest.left);
    }

    method FillRight(h: Node, right: Node, ghost t: Tree, ghost m: Tree, ghost r: Spine)
      requires Rep(root, m) && RepSpine(h.left, r, Left) && Apart(Parts(Top, m, r)) && m.Fork? && right == Last(h, r)
      requires h !in NodeSet(m) && h !in SpineSet(r) && h !in NodeSet(t) && NodeSet(t) !! SpineSet(r) && Rep(h.right, t)
      modifies right
      ensures Rep(h.left, Plug(r, Left, m.right)) && Rep(h.right, t) && root == m.node
    {
      right.left := root.right;
      PlugRep(h, r, Left, m.right);
    }

    /** Hangs the parts below the root. */
    method Assemble(h: Node, left: Node, right: Node, ghost p: Parts)
      requires Open(h, p) && Apart(p) && p.rest.Fork? && left == Last(h, p.left) && right == Last(h, p.right)
      modifies h, AllSet(p)
      ensures Rep(root, Assembled(p))
    {
      FillLeft(h, left, p);
      PlugSet(p.left, Right, p.rest.left);
      FillRight(h, right, Plug(p.left, Right, p.rest.left), p.rest, p.right);
      PlugSet(p.right, Left, p.rest.right);
      root.left := h.right;
      root.right := h.left;
    }

    // ---- Splaying ----

    /** The rotation of a round, if its conditions hold. */
    method Turn(k: int, ghost h: Node, ghost p: Parts)
      requires Open(h, p) && Sorted(AllNodes(p)) && p.rest.Fork? && k != p.rest.node.key
      modifies this`root, NodeSet(p.rest)
      ensures Open(h, p.(rest := Turned(k, p.rest)))
    {
      AllApart(p);
      ForkApart(p.rest);
      assert Rep(root.left, p.rest.left) && Rep(root.right, p.rest.right);
      var tmp := if k < root.key then root.left else root.right;
      if tmp != null {
        if k < root.key && k < tmp.key {
          ForkApart(p.rest.left);
          RotateRight(tmp, h, p);
        } else if root.key < k && tmp.key < k {
          ForkApart(p.rest.right);
          RotateLeft(tmp, h, p);
        }
      }
    }

    /** The link of a round. */
    method Link(k: int, h: Node, left0: Node, right0: Node, ghost p: Parts) returns (left: Node, right: Node)
      requires Open(h, p) && Sorted(AllNodes(p)) && p.rest.Fork? && left0 == Last(h, p.left) && right0 == Last(h, p.right)
      modifies this`root, left0, right0
      ensures Open(h, Linked(k, p)) && left == Last(h, Linked(k, p).left) && right == Last(h, Linked(k, p).right)
    {
      AllApart(p);
      left, right := left0, right0;
      if k < root.key {
        right := LinkLeft(h, right, p);
      } else {
        left := LinkRight(h, left, p);
      }
    }

    /** One round of the loop; `done` if there is nothing further in the direction of the key. */
    method Round(k: int, h: Node, left0: Node, right0: Node, ghost p: Parts) returns (done: bool, left: Node, right: Node)
      requires Open(h, p) && Sorted(AllNodes(p)) && p.rest.Fork? && k != p.rest.node.key
      requires left0 == Last(h, p.left) && right0 == Last(h, p.right) && nodes == AllSet(p)
      modifies this`root, h, nodes
      ensures Open(h, Step(k, p)) && left == Last(h, Step(k, p).left) && right == Last(h, Step(k, p).right)
      ensures done == IsStuck(k, Turned(k, p.rest))
    {
      ghost var q := p.(rest := Turned(k, p.rest));
      left, right := left0, right0;
      Turn(k, h, p);
      assert Rep(root.left, q.rest.left) && Rep(root.right, q.rest.right);
      done := (if k < root.key then root.left else root.right) == null;
      if !done {
        left, right := Link(k, h, left, right, q);
      }
    }

    /** Takes the tree apart around the key. */
    method TakeApart(h: Node, k: int) returns (left: Node, right: Node, ghost p: Parts)
      requires Valid() && h !in nodes && root != null
      modifies this`root, h, nodes
      ensures p == TakenApart(k, Parts(Top, tree, Top)) && p.rest.Fork? && nodes == AllSet(p) && Sorted(AllNodes(p))
      ensures Open(h, p) && left == Last(h, p.left) && right == Last(h, p.right)
    {
      left, right := h, h;
      p := Parts(Top, tree, Top);
      assert AllNodes(p) == Nodes(tree) && AllSet(p) == nodes;
      var done := false;
      while !done && k != root.key
        invariant Open(h, p) && p.rest.Fork? && left == Last(h, p.left) && right == Last(h, p.right)
        invariant Sorted(AllNodes(p)) && Between(k, p) && nodes == AllSet(p)
        invariant TakenApart(k, Parts(Top, tree, Top)) == if done then p else TakenApart(k, p)
        decreases !done, |Nodes(p.rest)|
      {
        StepKeeps(k, p);
        StepShrinks(k, p);
        done, left, right := Round(k, h, left, right, p);
        p := Step(k, p);
      }
    }

    /** Splays: takes the tree apart around the key and hangs the parts below the last node reached. */
    method SplayBelow(h: Node, k: int)
      requires Valid() && h !in nodes && root != null
      modifies this, h, nodes
      ensures Valid() && tree == Splayed(old(tree), k) && nodes == old(nodes)
    {
      SplayKeepsOrder(tree, k);
      var left, right;
      ghost var p;
      left, right, p := TakeApart(h, k);
      AllApart(p);
      Assemble(h, left, right, p);
      SetTree(Assembled(p), nodes);
    }

    method Splay(k: int)
      requires Valid() && root != null
      modifies this, nodes
      ensures Valid() && tree == Splayed(old(tree), k) && nodes == old(nodes)
    {
      var h := new Node(0);
      assert h !in nodes;
      SplayBelow(h, k);
    }

    // ---- The operations ----

    /** Finds the node with the key of `elm`. */
    method Find(elm: Node) returns (r: Node?)
      requires Valid()
      modifies this, nodes
      ensures Valid() && nodes == old(nodes) && Nodes(tree) == old(Nodes(tree))
      ensures r == null ==> !HasKey(nodes, elm.key)
      ensures r != null ==> r in nodes && r.key == elm.key && r == root
    {
      if root == null {
        return null;
      }
      SplayKeepsOrder(tree, elm.key);
      SplayFindsKey(tree, elm.key);
      Splay(elm.key);
      r := if elm.key == root.key then root else null;
    }

    /** Adds `elm`, unless a node with its key is there: then that node is returned and nothing is added. */
    method Insert(elm: Node) returns (r: Node?)
      requires Valid()
      modifies this, nodes, elm
      ensures Valid() && tree == Inserted(old(tree), elm)
      ensures r == null ==> !HasKey(old(nodes), elm.key) && nodes == old(nodes) + {elm}
      ensures r != null ==> r in nodes && r.key == elm.key && nodes == old(nodes)
    {
      InsertMeaning(tree, elm);
      if root == null {
        elm.left, elm.right := null, null;
        root := elm;
        SetTree(Fork(Empty, elm, Empty), {elm});
        return null;
      }
      SplayFindsKey(tree, elm.key);
      Splay(elm.key);
      if elm.key == root.key {
        return root;
      }
      InsertAtRoot(elm);
      return null;
    }

    method InsertAtRoot(elm: Node)
      requires Valid() && tree.Fork? && elm.key != tree.node.key && elm !in nodes && Sorted(Nodes(InsertedAtRoot(tree, elm)))
      modifies this, elm, root
      ensures Valid() && tree == InsertedAtRoot(old(tree), elm)
    {
      ghost var t, s := tree, nodes + {elm};
      ForkApart(t);
      if elm.key < root.key {
        elm.left := root.left;
        elm.right := root;
        root.left := null;
        root := elm;
        assert NodeSet(Fork(Empty, t.node, t.right)) == {t.node} + NodeSet(t.right);
      } else {
        elm.right := root.right;
        elm.left := root;
        root.right := null;
        root := elm;
        assert NodeSet(Fork(t.left, t.node, Empty)) == NodeSet(t.left) + {t.node};
      }
      SetTree(InsertedAtRoot(t, elm), s);
    }

    /** Removes the node with the key of `elm`; the result is `elm`, whether or not it is that node. */
    method Remove(elm: Node) returns (r: Node?)
      requires Valid()
      modifies this, nodes
      ensures Valid() && tree == Removed(old(tree), elm.key) && nodes == Without(old(nodes), elm.key)
      ensures r == if HasKey(old(nodes), elm.key) then elm else null
    {
      RemoveMeaning(tree, elm.key);
      if root == null {
        return null;
      }
      SplayFindsKey(tree, elm.key);
      Splay(elm.key);
      if elm.key != root.key {
        return null;
      }
      RemoveRoot(elm.key);
      return elm;
    }

    /** Removes the root. If it has a left subtree, splaying that brings up its largest node, which has
        no right child, so the right subtree can be attached there. */
    method RemoveRoot(k: int)
      requires Valid() && tree.Fork? && tree.node.key == k
      modifies this, nodes
      ensures Valid() && tree == RootRemoved(old(tree), k)
    {
      ghost var t := tree;
      ForkApart(t);
      AroundRoot(t);
      assert Rep(root.left, t.left);
      if root.left == null {
        root := root.right;
        SetTree(t.right, NodeSet(t.right));
      } else {
        var tmp := root.right;
        root := root.left;
        SetTree(t.left, NodeSet(t.left));
        SplayKeepsOrder(t.left, k);
        NoRightChild(t.left, k);
        Splay(k);
        Attach(tmp, t.right);
      }
    }

    /** Attaches a tree of larger keys to a root without right child. */
    method Attach(tmp: Node?, ghost u: Tree)
      requires Valid() && tree.Fork? && tree.right.Empty? && Rep(tmp, u) && NodeSet(u) !! nodes && Sorted(Nodes(tree) + Nodes(u))
      modifies this, root
      ensures Valid() && tree == Fork(old(tree).left, old(tree).node, u)
    {
      ghost var t := Fork(tree.left, tree.node, u);
      ForkApart(tree);
      AttachedNodes(tree, u);
      root.right := tmp;
      SetTree(t, nodes + NodeSet(u));
    }
  }
}
