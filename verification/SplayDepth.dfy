/**
 What splaying does to the depth of nodes: those on the path to the key come up to half their depth, and no
 node goes down by more than two.
 */
module SplayDepth {
  import opened SplayTree
  import opened SplayFunction

  /** The node is in the tree, at depth `d`. */
  predicate At(t: Tree, n: Node, d: nat) {
    t.Fork? && if d == 0 then n == t.node else At(t.left, n, d - 1) || At(t.right, n, d - 1)
  }

  /** The node is on the path that a search for the key takes, at depth `d`. */
  predicate OnPath(t: Tree, k: int, n: Node, d: nat) {
    t.Fork? &&
    if d == 0 then n == t.node
    else if k < t.node.key then OnPath(t.left, k, n, d - 1)
    else t.node.key < k && OnPath(t.right, k, n, d - 1)
  }

  function Len(s: Spine): nat { if s.Top? then 0 else Len(s.up) + 1 }

  /** The node is in the spine, at depth `d`. */
  predicate AtSpine(s: Spine, n: Node, d: nat) {
    s.Frame? &&
    (AtSpine(s.up, n, d) || (d == Len(s.up) && n == s.node) || (d > Len(s.up) && At(s.side, n, d - Len(s.up) - 1)))
  }

  lemma {:induction false} PlugAt(s: Spine, side: Side, t: Tree, n: Node, d: nat)
    ensures AtSpine(s, n, d) ==> At(Plug(s, side, t), n, d)
    ensures At(t, n, d) ==> At(Plug(s, side, t), n, Len(s) + d)
  {
    if s.Frame? {
      var u := if side.Right? then Fork(s.side, s.node, t) else Fork(t, s.node, s.side);
      PlugAt(s.up, side, u, n, d);
      PlugAt(s.up, side, u, n, d + 1);
      if d >= Len(s.up) {
        PlugAt(s.up, side, u, n, d - Len(s.up));
      }
    }
  }

  /** What is in the outer parts stays where it is. */
  lemma {:induction false} OuterStays(k: int, p: Parts, n: Node, d: nat)
    requires p.rest.Fork? && (AtSpine(p.left, n, d) || AtSpine(p.right, n, d))
    ensures At(Assembled(TakenApart(k, p)), n, d + 1)
    decreases |Nodes(p.rest)|
  {
    var q := TakenApart(k, p);
    if k != p.rest.node.key && !IsStuck(k, Turned(k, p.rest)) {
      StepShrinks(k, p);
      OuterStays(k, Step(k, p), n, d);
    } else {
      PlugAt(q.left, Right, q.rest.left, n, d);
      PlugAt(q.right, Left, q.rest.right, n, d);
    }
  }

  /** After `c` nodes of the path, no outer part is longer than half of that, rounded up on the side that the search
      does not turn to next. */
  predicate Balanced(k: int, p: Parts, c: nat)
    requires p.rest.Fork?
  {
    && 2 * Len(p.right) <= c + (if k < p.rest.node.key then 0 else 1)
    && 2 * Len(p.left) <= c + (if p.rest.node.key < k then 0 else 1)
  }

  /** How far a node at depth `e` of the rest may be in the end. */
  predicate IsNear(t: Tree, k: int, n: Node, e: nat, c: nat, d: nat) {
    d <= c + e + 2 && (OnPath(t, k, n, e) ==> 2 * d <= c + e + 4)
  }

  lemma {:induction false} PathAt(t: Tree, k: int, n: Node, d: nat)
    requires OnPath(t, k, n, d)
    ensures At(t, n, d)
  {
    if d > 0 {
      if k < t.node.key { PathAt(t.left, k, n, d - 1); } else { PathAt(t.right, k, n, d - 1); }
    }
  }

  /** A node of the rest when the parts are put together. */
  lemma AssembledAt(p: Parts, n: Node, e: nat)
    requires p.rest.Fork?
    ensures n == p.rest.node ==> At(Assembled(p), n, 0)
    ensures At(p.rest.left, n, e) ==> At(Assembled(p), n, Len(p.left) + e + 1)
    ensures At(p.rest.right, n, e) ==> At(Assembled(p), n, Len(p.right) + e + 1)
  {
    PlugAt(p.left, Right, p.rest.left, n, e);
    PlugAt(p.right, Left, p.rest.right, n, e);
  }

  /** The loop ends here: the key is at the root. */
  lemma FoundNear(k: int, p: Parts, c: nat, n: Node, e: nat) returns (d: nat)
    requires p.rest.Fork? && Balanced(k, p, c) && At(p.rest, n, e) && k == p.rest.node.key
    ensures At(Assembled(TakenApart(k, p)), n, d) && IsNear(p.rest, k, n, e, c, d)
  {
    if e == 0 {
      AssembledAt(p, n, 0);
      d := 0;
    } else {
      AssembledAt(p, n, e - 1);
      d := if At(p.rest.left, n, e - 1) then Len(p.left) + e else Len(p.right) + e;
    }
  }

  /** The loop ends here: there is nothing further to the left. */
  lemma StuckNearLeft(k: int, p: Parts, c: nat, n: Node, e: nat) returns (d: nat)
    requires p.rest.Fork? && Balanced(k, p, c) && At(p.rest, n, e) && k < p.rest.node.key && IsStuck(k, Turned(k, p.rest))
    ensures At(Assembled(TakenApart(k, p)), n, d) && IsNear(p.rest, k, n, e, c, d)
  {
    var t := p.rest;
    var q := p.(rest := Turned(k, t));
    if t.left.Empty? {
      if e == 0 {
        AssembledAt(q, n, 0);
        d := 0;
      } else {
        assert !OnPath(t.left, k, n, e - 1);
        AssembledAt(q, n, e - 1);
        d := Len(p.right) + e;
      }
    } else if e == 0 {
      AssembledAt(q, n, 0);
      d := Len(p.right) + 1;
    } else if e == 1 && n == t.left.node {
      AssembledAt(q, n, 0);
      d := 0;
    } else {
      assert t.left.left.Empty? && !OnPath(t.left, k, n, e - 1);
      if At(t.right, n, e - 1) {
        assert At(q.rest.right, n, e);
        AssembledAt(q, n, e);
        d := Len(p.right) + e + 1;
      } else {
        assert At(t.left, n, e - 1) && e >= 2 && !At(t.left.left, n, e - 2);
        assert At(t.left.right, n, e - 2) && At(q.rest.right, n, e - 1);
        AssembledAt(q, n, e - 1);
        d := Len(p.right) + e;
      }
    }
  }

  /** One link to the right part. */
  lemma LinkedNearLeft(k: int, p: Parts, c: nat, n: Node, e: nat) returns (d: nat)
    requires p.rest.Fork? && Balanced(k, p, c) && At(p.rest, n, e) && k < p.rest.node.key
    requires !IsStuck(k, Turned(k, p.rest)) && Turned(k, p.rest) == p.rest
    ensures At(Assembled(TakenApart(k, p)), n, d) && IsNear(p.rest, k, n, e, c, d)
    decreases |Nodes(p.rest)|, 0
  {
    var t, q := p.rest, Step(k, p);
    StepShrinks(k, p);
    if e == 0 {
      OuterStays(k, q, n, Len(p.right));
      d := Len(p.right) + 1;
    } else if At(t.left, n, e - 1) {
      d := Halves(k, q, c + 1, n, e - 1);
    } else {
      OuterStays(k, q, n, Len(p.right) + e);
      d := Len(p.right) + e + 1;
      if OnPath(t, k, n, e) { PathAt(t.left, k, n, e - 1); }
    }
  }

  /** A rotation, and a link to the right part. */
  lemma TurnedNearLeft(k: int, p: Parts, c: nat, n: Node, e: nat) returns (d: nat)
    requires p.rest.Fork? && Balanced(k, p, c) && At(p.rest, n, e) && k < p.rest.node.key
    requires !IsStuck(k, Turned(k, p.rest)) && p.rest.left.Fork? && k < p.rest.left.node.key
    ensures At(Assembled(TakenApart(k, p)), n, d) && IsNear(p.rest, k, n, e, c, d)
    decreases |Nodes(p.rest)|, 0
  {
    var t, q := p.rest, Step(k, p);
    var side := Fork(t.left.right, t.node, t.right);
    StepShrinks(k, p);
    assert q.right == Frame(p.right, t.left.node, side) && q.rest == t.left.left;
    if e >= 2 && At(t.left.left, n, e - 2) {
      assert OnPath(t, k, n, e) ==> OnPath(t.left, k, n, e - 1);
      d := Halves(k, q, c + 2, n, e - 2);
    } else if e == 1 && n == t.left.node {
      OuterStays(k, q, n, Len(p.right));
      d := Len(p.right) + 1;
    } else {
      if OnPath(t, k, n, e) && e >= 1 {
        assert OnPath(t.left, k, n, e - 1);
        assert e >= 2;
        PathAt(t.left.left, k, n, e - 2);
      }
      if e == 0 {
        assert At(side, n, 0);
        OuterStays(k, q, n, Len(p.right) + 1);
        d := Len(p.right) + 2;
      } else if At(t.right, n, e - 1) {
        assert At(side, n, e);
        OuterStays(k, q, n, Len(p.right) + 1 + e);
        d := Len(p.right) + e + 2;
      } else {
        assert At(t.left.right, n, e - 2) && At(side, n, e - 1);
        OuterStays(k, q, n, Len(p.right) + e);
        d := Len(p.right) + e + 1;
      }
    }
  }
  /** The loop ends here: there is nothing further to the right. */
  lemma StuckNearRight(k: int, p: Parts, c: nat, n: Node, e: nat) returns (d: nat)
    requires p.rest.Fork? && Balanced(k, p, c) && At(p.rest, n, e) && p.rest.node.key < k && IsStuck(k, Turned(k, p.rest))
    ensures At(Assembled(TakenApart(k, p)), n, d) && IsNear(p.rest, k, n, e, c, d)
  {
    var t := p.rest;
    var q := p.(rest := Turned(k, t));
    if t.right.Empty? {
      if e == 0 {
        AssembledAt(q, n, 0);
        d := 0;
      } else {
        assert !OnPath(t.right, k, n, e - 1);
        AssembledAt(q, n, e - 1);
        d := Len(p.left) + e;
      }
    } else if e == 0 {
      AssembledAt(q, n, 0);
      d := Len(p.left) + 1;
    } else if e == 1 && n == t.right.node {
      AssembledAt(q, n, 0);
      d := 0;
    } else {
      assert t.right.right.Empty? && !OnPath(t.right, k, n, e - 1);
      if At(t.left, n, e - 1) {
        assert At(q.rest.left, n, e);
        AssembledAt(q, n, e);
        d := Len(p.left) + e + 1;
      } else {
        assert At(t.right, n, e - 1) && e >= 2 && !At(t.right.right, n, e - 2);
        assert At(t.right.left, n, e - 2) && At(q.rest.left, n, e - 1);
        AssembledAt(q, n, e - 1);
        d := Len(p.left) + e;
      }
    }
  }

  /** One link to the left part. */
  lemma LinkedNearRight(k: int, p: Parts, c: nat, n: Node, e: nat) returns (d: nat)
    requires p.rest.Fork? && Balanced(k, p, c) && At(p.rest, n, e) && p.rest.node.key < k
    requires !IsStuck(k, Turned(k, p.rest)) && Turned(k, p.rest) == p.rest
    ensures At(Assembled(TakenApart(k, p)), n, d) && IsNear(p.rest, k, n, e, c, d)
    decreases |Nodes(p.rest)|, 0
  {
    var t, q := p.rest, Step(k, p);
    StepShrinks(k, p);
    if e == 0 {
      OuterStays(k, q, n, Len(p.left));
      d := Len(p.left) + 1;
    } else if At(t.right, n, e - 1) {
      d := Halves(k, q, c + 1, n, e - 1);
    } else {
      OuterStays(k, q, n, Len(p.left) + e);
      d := Len(p.left) + e + 1;
      if OnPath(t, k, n, e) { PathAt(t.right, k, n, e - 1); }
    }
  }

  /** A rotation, and a link to the left part. */
  lemma TurnedNearRight(k: int, p: Parts, c: nat, n: Node, e: nat) returns (d: nat)
    requires p.rest.Fork? && Balanced(k, p, c) && At(p.rest, n, e) && p.rest.node.key < k
    requires !IsStuck(k, Turned(k, p.rest)) && p.rest.right.Fork? && p.rest.right.node.key < k
    ensures At(Assembled(TakenApart(k, p)), n, d) && IsNear(p.rest, k, n, e, c, d)
    decreases |Nodes(p.rest)|, 0
  {
    var t, q := p.rest, Step(k, p);
    var side := Fork(t.left, t.node, t.right.left);
    StepShrinks(k, p);
    assert q.left == Frame(p.left, t.right.node, side) && q.rest == t.right.right;
    if e >= 2 && At(t.right.right, n, e - 2) {
      assert OnPath(t, k, n, e) ==> OnPath(t.right, k, n, e - 1);
      d := Halves(k, q, c + 2, n, e - 2);
    } else if e == 1 && n == t.right.node {
      OuterStays(k, q, n, Len(p.left));
      d := Len(p.left) + 1;
    } else {
      if OnPath(t, k, n, e) && e >= 1 {
        assert OnPath(t.right, k, n, e - 1);
        assert e >= 2;
        PathAt(t.right.right, k, n, e - 2);
      }
      if e == 0 {
        assert At(side, n, 0);
        OuterStays(k, q, n, Len(p.left) + 1);
        d := Len(p.left) + 2;
      } else if At(t.left, n, e - 1) {
        assert At(side, n, e);
        OuterStays(k, q, n, Len(p.left) + 1 + e);
        d := Len(p.left) + e + 2;
      } else {
        assert At(t.right.left, n, e - 2) && At(side, n, e - 1);
        OuterStays(k, q, n, Len(p.left) + e);
        d := Len(p.left) + e + 1;
      }
    }
  }

  /** Where a node of the rest ends up. */
  lemma Halves(k: int, p: Parts, c: nat, n: Node, e: nat) returns (d: nat)
    requires p.rest.Fork? && Balanced(k, p, c) && At(p.rest, n, e)
    ensures At(Assembled(TakenApart(k, p)), n, d) && IsNear(p.rest, k, n, e, c, d)
    decreases |Nodes(p.rest)|, 1
  {
    var t := p.rest;
    if k == t.node.key {
      d := FoundNear(k, p, c, n, e);
    } else if k < t.node.key {
      if IsStuck(k, Turned(k, t)) {
        d := StuckNearLeft(k, p, c, n, e);
      } else if k < t.left.node.key {
        d := TurnedNearLeft(k, p, c, n, e);
      } else {
        d := LinkedNearLeft(k, p, c, n, e);
      }
    } else if IsStuck(k, Turned(k, t)) {
      d := StuckNearRight(k, p, c, n, e);
    } else if t.right.node.key < k {
      d := TurnedNearRight(k, p, c, n, e);
    } else {
      d := LinkedNearRight(k, p, c, n, e);
    }
  }

  /** Splaying halves the path: a node at depth `e` on the path to the key ends up at depth `e / 2 + 2` or above, and
      every other node goes down by at most two. */
  lemma SplayHalvesPath(t: Tree, k: int, n: Node, e: nat) returns (d: nat)
    requires At(t, n, e)
    ensures At(Splayed(t, k), n, d) && d <= e + 2 && (OnPath(t, k, n, e) ==> d <= e / 2 + 2)
  {
    d := Halves(k, Parts(Top, t, Top), 0, n, e);
  }
}
