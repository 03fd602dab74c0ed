/**
 Top-down splaying, insertion and removal as functions on trees, and what they mean for the set of nodes.
 */
module SplayFunction {
  import opened SplayTree

  // ---- A tree that is taken apart around a key ----

  /** A left part, the rest, and a right part. */
  datatype Parts = Parts(left: Spine, rest: Tree, right: Spine)

  /** All nodes from left to right. */
  function AllNodes(p: Parts): seq<Node> {
    SpineNodes(p.left, Right) + Nodes(p.rest) + SpineNodes(p.right, Left)
  }

  function AllSet(p: Parts): set<Node> {
    SpineSet(p.left) + NodeSet(p.rest) + SpineSet(p.right)
  }

  function RotatedRight(t: Tree): (r: Tree)
    requires t.Fork? && t.left.Fork?
    ensures Nodes(r) == Nodes(t) && NodeSet(r) == NodeSet(t)
  {
    Fork(t.left.left, t.left.node, Fork(t.left.right, t.node, t.right))
  }

  function RotatedLeft(t: Tree): (r: Tree)
    requires t.Fork? && t.right.Fork?
    ensures Nodes(r) == Nodes(t) && NodeSet(r) == NodeSet(t)
  {
    Fork(Fork(t.left, t.node, t.right.left), t.right.node, t.right.right)
  }

  /** The rest after a possible rotation towards the key. */
  function Turned(k: int, t: Tree): (r: Tree)
    requires t.Fork?
    ensures r.Fork? && Nodes(r) == Nodes(t) && NodeSet(r) == NodeSet(t)
    ensures k < t.node.key ==> k < r.node.key
    ensures t.node.key < k ==> r.node.key < k
  {
    if k < t.node.key && t.left.Fork? && k < t.left.node.key then RotatedRight(t)
    else if t.node.key < k && t.right.Fork? && t.right.node.key < k then RotatedLeft(t)
    else t
  }

  /** There is nothing further in the direction of the key. */
  predicate IsStuck(k: int, t: Tree)
    requires t.Fork?
  {
    (k < t.node.key && t.left.Empty?) || (t.node.key < k && t.right.Empty?)
  }

  /** The root and what lies beyond it, seen from the key, go to the part on their side. */
  function Linked(k: int, p: Parts): Parts
    requires p.rest.Fork?
  {
    var t := p.rest;
    if k < t.node.key then Parts(p.left, t.left, Frame(p.right, t.node, t.right))
    else Parts(Frame(p.left, t.node, t.left), t.right, p.right)
  }

  function Step(k: int, p: Parts): Parts
    requires p.rest.Fork?
  {
    var q := p.(rest := Turned(k, p.rest));
    if IsStuck(k, q.rest) then q else Linked(k, q)
  }

  /** The loop: until the key is at the root or there is nothing further in its direction. */
  function TakenApart(k: int, p: Parts): (q: Parts)
    requires p.rest.Fork?
    ensures q.rest.Fork?
    decreases |Nodes(p.rest)|
  {
    if k == p.rest.node.key then p
    else if IsStuck(k, Turned(k, p.rest)) then Step(k, p)
    else TakenApart(k, Step(k, p))
  }

  function Assembled(p: Parts): Tree
    requires p.rest.Fork?
  {
    Fork(Plug(p.left, Right, p.rest.left), p.rest.node, Plug(p.right, Left, p.rest.right))
  }

  function Splayed(t: Tree, k: int): (r: Tree)
    requires t.Fork?
    ensures r.Fork?
  {
    Assembled(TakenApart(k, Parts(Top, t, Top)))
  }

  // ---- Splaying keeps the order and finds the key ----

  predicate Above(s: seq<Node>, k: int) {
    forall n :: n in s ==> n.key > k
  }

  predicate Below(s: seq<Node>, k: int) {
    forall n :: n in s ==> n.key < k
  }

  /** The key lies between the two outer parts. */
  predicate Between(k: int, p: Parts) {
    Below(SpineNodes(p.left, Right), k) && Above(SpineNodes(p.right, Left), k)
  }

  /** The root has the key, or every node on the other side of the key is beyond it. */
  predicate Nearest(t: Tree, k: int)
    requires t.Fork?
  {
    && (k < t.node.key ==> Below(Nodes(t.left), k))
    && (t.node.key < k ==> Above(Nodes(t.right), k))
  }

  lemma SortedRest(p: Parts)
    requires Sorted(AllNodes(p))
    ensures Sorted(SpineNodes(p.left, Right)) && Sorted(Nodes(p.rest)) && Sorted(SpineNodes(p.right, Left))
  {
    var a, b, c := SpineNodes(p.left, Right), Nodes(p.rest), SpineNodes(p.right, Left);
    SortedParts(a + b, c);
    SortedParts(a, b);
  }

  lemma LinkedKeeps(k: int, p: Parts)
    requires p.rest.Fork?
    ensures AllNodes(Linked(k, p)) == AllNodes(p) && AllSet(Linked(k, p)) == AllSet(p)
    ensures |Nodes(Linked(k, p).rest)| < |Nodes(p.rest)|
  {
  }

  lemma LinkedBetween(k: int, p: Parts)
    requires p.rest.Fork? && p.rest.node.key != k && Sorted(Nodes(p.rest)) && Between(k, p)
    ensures Between(k, Linked(k, p))
  {
    var t := p.rest;
    SortedParts(Nodes(t.left) + [t.node], Nodes(t.right));
    SortedParts(Nodes(t.left), [t.node]);
    assert t.node in [t.node] && t.node in Nodes(t.left) + [t.node];
  }

  lemma StepKeeps(k: int, p: Parts)
    requires p.rest.Fork? && p.rest.node.key != k && Sorted(AllNodes(p)) && Between(k, p)
    ensures var q := Step(k, p); AllNodes(q) == AllNodes(p) && AllSet(q) == AllSet(p) && Between(k, q)
  {
    var q := p.(rest := Turned(k, p.rest));
    SortedRest(p);
    LinkedKeeps(k, q);
    LinkedBetween(k, q);
  }

  lemma StepShrinks(k: int, p: Parts)
    requires p.rest.Fork?
    ensures Step(k, p).rest.Fork? || !IsStuck(k, Turned(k, p.rest))
    ensures !IsStuck(k, Turned(k, p.rest)) ==> |Nodes(Step(k, p).rest)| < |Nodes(p.rest)|
  {
    LinkedKeeps(k, p.(rest := Turned(k, p.rest)));
  }

  lemma {:induction false} TakenApartKeeps(k: int, p: Parts)
    requires p.rest.Fork? && Sorted(AllNodes(p)) && Between(k, p)
    ensures var q := TakenApart(k, p);
            && AllNodes(q) == AllNodes(p) && AllSet(q) == AllSet(p) && Between(k, q)
            && (q.rest.node.key == k || IsStuck(k, q.rest))
    decreases |Nodes(p.rest)|
  {
    if k != p.rest.node.key {
      StepKeeps(k, p);
      if !IsStuck(k, Turned(k, p.rest)) {
        LinkedKeeps(k, p.(rest := Turned(k, p.rest)));
        TakenApartKeeps(k, Step(k, p));
      }
    }
  }

  lemma AssembledKeeps(p: Parts, k: int)
    requires p.rest.Fork? && Between(k, p) && (p.rest.node.key == k || IsStuck(k, p.rest))
    ensures var t := Assembled(p); Nodes(t) == AllNodes(p) && NodeSet(t) == AllSet(p) && Nearest(t, k)
  {
    PlugNodes(p.left, Right, p.rest.left);
    PlugNodes(p.right, Left, p.rest.right);
    PlugSet(p.left, Right, p.rest.left);
    PlugSet(p.right, Left, p.rest.right);
  }

  /** Splaying keeps the in-order sequence, and leaves no node between the key and the root. */
  lemma SplayKeepsOrder(t: Tree, k: int)
    requires t.Fork? && Sorted(Nodes(t))
    ensures Nodes(Splayed(t, k)) == Nodes(t) && NodeSet(Splayed(t, k)) == NodeSet(t) && Nearest(Splayed(t, k), k)
  {
    var p := Parts(Top, t, Top);
    assert AllNodes(p) == Nodes(t);
    TakenApartKeeps(k, p);
    AssembledKeeps(TakenApart(k, p), k);
  }

  ghost predicate HasKey(s: set<Node>, k: int) {
    exists n :: n in s && n.key == k
  }

  /** After splaying, the key is at the root if and only if it is in the tree. */
  lemma SplayFindsKey(t: Tree, k: int)
    requires t.Fork? && Sorted(Nodes(t))
    ensures Splayed(t, k).node.key == k <==> HasKey(NodeSet(t), k)
  {
    SplayKeepsOrder(t, k);
    RootOrAbsent(Splayed(t, k), k);
  }

  lemma RootOrAbsent(t: Tree, k: int)
    requires t.Fork? && Sorted(Nodes(t)) && Nearest(t, k)
    ensures t.node.key == k <==> HasKey(NodeSet(t), k)
  {
    TreeSet(t);
    SortedParts(Nodes(t.left) + [t.node], Nodes(t.right));
    SortedParts(Nodes(t.left), [t.node]);
    assert t.node in [t.node] && t.node in Nodes(t.left) + [t.node] && t.node in NodeSet(t);
    if t.node.key != k {
      forall n | n in Nodes(t)
        ensures n.key != k
      {
      }
    }
  }

  // ---- Insertion ----

  /** The new node takes the place of the root, on the right side of which it is or is not. */
  function InsertedAtRoot(t: Tree, elm: Node): Tree
    requires t.Fork?
  {
    if elm.key < t.node.key then Fork(t.left, elm, Fork(Empty, t.node, t.right))
    else if t.node.key < elm.key then Fork(Fork(t.left, t.node, Empty), elm, t.right)
    else t
  }

  function Inserted(t: Tree, elm: Node): Tree {
    if t.Empty? then Fork(Empty, elm, Empty) else InsertedAtRoot(Splayed(t, elm.key), elm)
  }

  lemma InsertSorted(a: seq<Node>, elm: Node, b: seq<Node>)
    requires Sorted(a + b) && Below(a, elm.key) && Above(b, elm.key)
    ensures Sorted(a + [elm] + b)
  {
    SortedParts(a, b);
    SortedParts(a, [elm]);
    SortedParts(a + [elm], b);
  }

  lemma AboveRoot(t: Tree, k: int)
    requires t.Fork? && Sorted(Nodes(t)) && k < t.node.key
    ensures Above([t.node] + Nodes(t.right), k)
  {
    SortedParts(Nodes(t.left) + [t.node], Nodes(t.right));
    assert t.node in Nodes(t.left) + [t.node];
  }

  lemma BelowRoot(t: Tree, k: int)
    requires t.Fork? && Sorted(Nodes(t)) && t.node.key < k
    ensures Below(Nodes(t.left) + [t.node], k)
  {
    SortedParts(Nodes(t.left) + [t.node], Nodes(t.right));
    SortedParts(Nodes(t.left), [t.node]);
    assert t.node in [t.node];
  }

  lemma InsertedBelowRoot(t: Tree, elm: Node)
    requires t.Fork? && Sorted(Nodes(t)) && Nearest(t, elm.key) && elm.key < t.node.key
    ensures Sorted(Nodes(InsertedAtRoot(t, elm)))
  {
    var v, b := Fork(Empty, t.node, t.right), [t.node] + Nodes(t.right);
    AboveRoot(t, elm.key);
    assert Nodes(t) == Nodes(t.left) + b && Nodes(v) == b;
    InsertSorted(Nodes(t.left), elm, b);
  }

  lemma InsertedAboveRoot(t: Tree, elm: Node)
    requires t.Fork? && Sorted(Nodes(t)) && Nearest(t, elm.key) && t.node.key < elm.key
    ensures Sorted(Nodes(InsertedAtRoot(t, elm)))
  {
    var v, a := Fork(t.left, t.node, Empty), Nodes(t.left) + [t.node];
    BelowRoot(t, elm.key);
    assert Nodes(v) == a;
    InsertSorted(a, elm, Nodes(t.right));
  }

  lemma InsertedSet(t: Tree, elm: Node)
    requires t.Fork? && elm.key != t.node.key
    ensures NodeSet(InsertedAtRoot(t, elm)) == NodeSet(t) + {elm}
  {
    assert NodeSet(Fork(Empty, t.node, t.right)) == {t.node} + NodeSet(t.right);
    assert NodeSet(Fork(t.left, t.node, Empty)) == NodeSet(t.left) + {t.node};
  }

  lemma InsertedAtRootKeeps(t: Tree, elm: Node)
    requires t.Fork? && Sorted(Nodes(t)) && Nearest(t, elm.key)
    ensures var u := InsertedAtRoot(t, elm);
            Sorted(Nodes(u)) && NodeSet(u) == if elm.key == t.node.key then NodeSet(t) else NodeSet(t) + {elm}
  {
    if elm.key < t.node.key {
      InsertedBelowRoot(t, elm);
      InsertedSet(t, elm);
    } else if t.node.key < elm.key {
      InsertedAboveRoot(t, elm);
      InsertedSet(t, elm);
    }
  }

  /** Insertion adds the node exactly if no node with its key is there, and keeps the order. */
  lemma InsertMeaning(t: Tree, elm: Node)
    requires Sorted(Nodes(t))
    ensures Sorted(Nodes(Inserted(t, elm)))
    ensures NodeSet(Inserted(t, elm)) == if HasKey(NodeSet(t), elm.key) then NodeSet(t) else NodeSet(t) + {elm}
  {
    if t.Fork? {
      SplayKeepsOrder(t, elm.key);
      SplayFindsKey(t, elm.key);
      InsertedAtRootKeeps(Splayed(t, elm.key), elm);
    }
  }

  // ---- Removal ----

  function Without(s: set<Node>, k: int): set<Node> {
    set n | n in s && n.key != k
  }

  /** The tree without its root: the largest node of the left subtree comes up and takes the right
      subtree. */
  function RootRemoved(t: Tree, k: int): Tree
    requires t.Fork?
  {
    if t.left.Empty? then t.right
    else
      var u := Splayed(t.left, k);
      Fork(u.left, u.node, t.right)
  }

  function Removed(t: Tree, k: int): Tree {
    if t.Empty? then t
    else
      var s := Splayed(t, k);
      if s.node.key == k then RootRemoved(s, k) else s
  }

  lemma AroundRoot(t: Tree)
    requires t.Fork? && Sorted(Nodes(t))
    ensures NodeSet(t.left) + NodeSet(t.right) == Without(NodeSet(t), t.node.key)
    ensures Below(Nodes(t.left), t.node.key) && Sorted(Nodes(t.left) + Nodes(t.right))
    ensures Sorted(Nodes(t.left)) && Sorted(Nodes(t.right))
  {
    var a, c := Nodes(t.left), Nodes(t.right);
    TreeSet(t.left);
    TreeSet(t.right);
    SortedParts(a + [t.node], c);
    SortedParts(a, [t.node]);
    SortedParts(a, c);
    assert t.node in [t.node] && t.node in a + [t.node];
  }

  /** Splaying for a key above all keys brings up a node without right child, so that no node is lost when
      another tree is attached there. */
  lemma NoRightChild(t: Tree, k: int)
    requires t.Fork? && Sorted(Nodes(t)) && Below(Nodes(t), k)
    ensures Splayed(t, k).right.Empty?
  {
    SplayKeepsOrder(t, k);
    var s := Splayed(t, k);
    assert s.node in Nodes(s);
    assert forall n :: n in Nodes(s.right) ==> n in Nodes(s);
    assert Nodes(s.right) == [];
  }

  lemma AttachedNodes(s: Tree, u: Tree)
    requires s.Fork? && s.right.Empty?
    ensures Nodes(Fork(s.left, s.node, u)) == Nodes(s) + Nodes(u)
    ensures NodeSet(Fork(s.left, s.node, u)) == NodeSet(s) + NodeSet(u)
  {
  }

  lemma RootRemovedKeeps(t: Tree)
    requires t.Fork? && Sorted(Nodes(t))
    ensures var u := RootRemoved(t, t.node.key); Sorted(Nodes(u)) && NodeSet(u) == Without(NodeSet(t), t.node.key)
  {
    AroundRoot(t);
    if t.left.Fork? {
      SplayKeepsOrder(t.left, t.node.key);
      NoRightChild(t.left, t.node.key);
      AttachedNodes(Splayed(t.left, t.node.key), t.right);
    }
  }

  /** Removal removes exactly the node with the key, if there is one, and keeps the order. */
  lemma RemoveMeaning(t: Tree, k: int)
    requires Sorted(Nodes(t))
    ensures Sorted(Nodes(Removed(t, k))) && NodeSet(Removed(t, k)) == Without(NodeSet(t), k)
  {
    if t.Fork? {
      SplayKeepsOrder(t, k);
      SplayFindsKey(t, k);
      RootRemovedKeeps(Splayed(t, k));
      if Splayed(t, k).node.key != k {
        assert Without(NodeSet(t), k) == NodeSet(t);
      }
    }
  }

  /** Inserting a key that is there, or removing one that is not, only splays. */
  lemma NoChangeSplays(t: Tree, elm: Node)
    requires t.Fork? && Sorted(Nodes(t))
    ensures HasKey(NodeSet(t), elm.key) ==> Inserted(t, elm) == Splayed(t, elm.key)
    ensures !HasKey(NodeSet(t), elm.key) ==> Removed(t, elm.key) == Splayed(t, elm.key)
  {
    SplayFindsKey(t, elm.key);
  }
}
