/** What splaying makes of a tree, and what it costs: paths are halved, and any sequence of accesses is cheap. */
module TreeSplay {
  import opened TreeShape

  /** x goes up one step, to the root. */
  ghost function OneUp(l: Shape, x: Node, r: Shape, path: Path): (t: Shape)
    requires !path.Root? && path.up.Root?
    ensures t.Fork? && t.node == x
  {
    match path
    case Left(p, pr, _) => Fork(l, x, Fork(r, p, pr))
    case Right(pl, p, _) => Fork(Fork(pl, p, l), x, r)
  }

  /** x goes up two steps: on a straight path its grandparent turns first, so that all three change places. */
  ghost function TwoUp(l: Shape, x: Node, r: Shape, path: Path): (t: Shape)
    requires !path.Root? && !path.up.Root?
    ensures t.Fork? && t.node == x
  {
    match path
    case Left(p, pr, Left(g, gr, _)) => Fork(l, x, Fork(r, p, Fork(pr, g, gr)))
    case Left(p, pr, Right(gl, g, _)) => Fork(Fork(gl, g, l), x, Fork(r, p, pr))
    case Right(pl, p, Left(g, gr, _)) => Fork(Fork(pl, p, l), x, Fork(r, g, gr))
    case Right(pl, p, Right(gl, g, _)) => Fork(Fork(Fork(gl, g, pl), p, l), x, r)
  }

  /** x goes to the root. */
  ghost function Splayed(l: Shape, x: Node, r: Shape, path: Path): (t: Shape)
    ensures t.Fork? && t.node == x
    decreases path
  {
    if path.Root? then Fork(l, x, r)
    else if path.up.Root? then OneUp(l, x, r, path)
    else
      var t := TwoUp(l, x, r, path);
      Splayed(t.left, x, t.right, path.up.up)
  }

  // Depths.

  ghost function DepthIn(t: Shape, n: Node): nat
    requires n in Nodes(t)
  {
    if n == t.node then 0 else if n in Nodes(t.left) then 1 + DepthIn(t.left, n) else 1 + DepthIn(t.right, n)
  }

  lemma {:induction false} DepthPlugged(t: Shape, path: Path, n: Node)
    requires n in Nodes(t) && Apart(Plug(t, path))
    ensures n in Nodes(Plug(t, path)) && DepthIn(Plug(t, path), n) == DepthIn(t, n) + Depth(path)
    decreases path
  {
    PlugNodes(t, path);
    PlugApart(t, path);
    match path
    case Root =>
    case Left(p, pr, up) =>
      DepthPlugged(Fork(t, p, pr), up, n);
    case Right(pl, p, up) =>
      DepthPlugged(Fork(pl, p, t), up, n);
  }

  /** A subtree and the path to it, no node twice. */
  ghost predicate Whole(t: Shape, path: Path) {
    Apart(t) && PathApart(path) && Nodes(t) !! PathNodes(path)
  }

  /** The same nodes in another shape. */
  ghost predicate Alike(t: Shape, u: Shape) {
    Nodes(t) == Nodes(u) && (Apart(t) <==> Apart(u))
  }

  lemma Rotated(a: Shape, y: Node, b: Shape, x: Node, c: Shape)
    ensures Alike(Fork(Fork(a, y, b), x, c), Fork(a, y, Fork(b, x, c)))
  {
    assert Apart(Fork(a, y, b)) <==> Apart(a) && Apart(b) && y !in Nodes(a) + Nodes(b) && Nodes(a) !! Nodes(b);
    assert Apart(Fork(b, x, c)) <==> Apart(b) && Apart(c) && x !in Nodes(b) + Nodes(c) && Nodes(b) !! Nodes(c);
  }

  /** The subtree one step up. */
  ghost function Parent(t: Shape, path: Path): Shape
    requires !path.Root?
  {
    if path.Left? then Fork(t, path.node, path.right) else Fork(path.left, path.node, t)
  }

  lemma ParentWhole(t: Shape, path: Path)
    requires !path.Root?
    ensures Whole(t, path) <==> Whole(Parent(t, path), path.up)
    ensures Nodes(Parent(t, path)) + PathNodes(path.up) == Nodes(t) + PathNodes(path)
    ensures Nodes(t) <= Nodes(Parent(t, path)) && path.node in Nodes(Parent(t, path))
  {
    PlugApart(t, path);
    PlugApart(Parent(t, path), path.up);
    PlugNodes(t, path);
    PlugNodes(Parent(t, path), path.up);
  }

  /** The two steps are two rotations. */
  lemma TwoUpAlike(l: Shape, x: Node, r: Shape, path: Path)
    requires !path.Root? && !path.up.Root?
    ensures Alike(TwoUp(l, x, r, path), Parent(Parent(Fork(l, x, r), path), path.up))
  {
    match path
    case Left(p, pr, Left(g, gr, _)) =>
      Rotated(Fork(l, x, r), p, pr, g, gr);
      Rotated(l, x, r, p, Fork(pr, g, gr));
    case Left(p, pr, Right(gl, g, _)) =>
      Rotated(l, x, r, p, pr);
      Rotated(gl, g, l, x, Fork(r, p, pr));
    case Right(pl, p, Left(g, gr, _)) =>
      Rotated(pl, p, l, x, r);
      Rotated(Fork(pl, p, l), x, r, g, gr);
    case Right(pl, p, Right(gl, g, _)) =>
      Rotated(gl, g, pl, p, Fork(l, x, r));
      Rotated(Fork(gl, g, pl), p, l, x, r);
  }

  lemma TwoUpNodes(l: Shape, x: Node, r: Shape, path: Path)
    requires !path.Root? && !path.up.Root? && Whole(Fork(l, x, r), path)
    ensures var t := TwoUp(l, x, r, path);
      && Whole(t, path.up.up) && Nodes(Fork(l, x, r)) <= Nodes(t)
      && path.node in Nodes(t) && path.up.node in Nodes(t)
  {
    ParentWhole(Fork(l, x, r), path);
    ParentWhole(Parent(Fork(l, x, r), path), path.up);
    TwoUpAlike(l, x, r, path);
  }

  /** In the two steps what is below x sinks by one at most, and the parent and the grandparent by two. */
  lemma TwoUpDepths(l: Shape, x: Node, r: Shape, path: Path, n: Node)
    requires !path.Root? && !path.up.Root? && Whole(Fork(l, x, r), path)
    requires n in Nodes(Fork(l, x, r)) + {path.node, path.up.node}
    ensures var t := TwoUp(l, x, r, path);
      && n in Nodes(t)
      && (n in Nodes(Fork(l, x, r)) ==> DepthIn(t, n) <= DepthIn(Fork(l, x, r), n) + 1)
      && (n == path.node ==> DepthIn(t, n) == 1)
      && (n == path.up.node ==> DepthIn(t, n) <= 2)
  {
    var t := TwoUp(l, x, r, path);
    TwoUpNodes(l, x, r, path);
    assert Apart(t) && Apart(t.left) && Apart(t.right);
    match path
    case Left(p, pr, Left(g, gr, _)) =>
      assert Apart(Fork(pr, g, gr)) && DepthIn(Fork(pr, g, gr), g) == 0;
    case Left(p, pr, Right(gl, g, _)) =>
    case Right(pl, p, Left(g, gr, _)) =>
    case Right(pl, p, Right(gl, g, _)) =>
      assert Apart(Fork(gl, g, pl)) && DepthIn(Fork(gl, g, pl), g) == 0;
  }

  lemma OneUpDepths(l: Shape, x: Node, r: Shape, path: Path, n: Node)
    requires !path.Root? && path.up.Root? && Whole(Fork(l, x, r), path) && n in Nodes(Fork(l, x, r)) + {path.node}
    ensures var t := OneUp(l, x, r, path);
      && n in Nodes(t)
      && (n in Nodes(Fork(l, x, r)) ==> DepthIn(t, n) <= DepthIn(Fork(l, x, r), n) + 1)
      && (n == path.node ==> DepthIn(t, n) == 1)
  {
  }

  /** While x goes up, a node below it comes up by half of the path. */
  lemma {:induction false} Raised(l: Shape, x: Node, r: Shape, path: Path, n: Node)
    requires Whole(Fork(l, x, r), path) && n in Nodes(Fork(l, x, r))
    ensures n in Nodes(Splayed(l, x, r, path))
    ensures DepthIn(Splayed(l, x, r, path), n) <= DepthIn(Fork(l, x, r), n) + (Depth(path) + 1) / 2
    decreases path
  {
    if !path.Root? {
      if path.up.Root? {
        OneUpDepths(l, x, r, path, n);
      } else {
        var t := TwoUp(l, x, r, path);
        TwoUpNodes(l, x, r, path);
        TwoUpDepths(l, x, r, path, n);
        Raised(t.left, x, t.right, path.up.up, n);
      }
    }
  }

  /** The node at depth d on a path. */
  ghost function OnPath(path: Path, d: nat): Node
    requires d < Depth(path)
  {
    if d + 1 == Depth(path) then path.node else OnPath(path.up, d)
  }

  /** The depth of every node on the path is halved, but for two. */
  lemma {:induction false} Halved(l: Shape, x: Node, r: Shape, path: Path, d: nat)
    requires Whole(Fork(l, x, r), path) && d < Depth(path)
    ensures var n := OnPath(path, d);
      n in Nodes(Splayed(l, x, r, path)) && DepthIn(Splayed(l, x, r, path), n) <= (d + 1) / 2 + 2
    decreases path
  {
    var n := OnPath(path, d);
    if path.up.Root? {
      OneUpDepths(l, x, r, path, n);
    } else {
      var t := TwoUp(l, x, r, path);
      TwoUpNodes(l, x, r, path);
      assert Depth(path) == Depth(path.up) + 1 == Depth(path.up.up) + 2;
      if d + 2 < Depth(path) {
        Halved(t.left, x, t.right, path.up.up, d);
      } else {
        assert d + 1 < Depth(path) ==> OnPath(path.up, d) == path.up.node;
        TwoUpDepths(l, x, r, path, n);
        Raised(t.left, x, t.right, path.up.up, n);
      }
    }
  }

  /** d is the depth of that node in the whole tree. */
  lemma {:induction false} OnPathDepth(t: Shape, path: Path, d: nat)
    requires Apart(Plug(t, path)) && d < Depth(path)
    ensures var n := OnPath(path, d); n in Nodes(Plug(t, path)) && DepthIn(Plug(t, path), n) == d
    decreases path
  {
    var t1 := Parent(t, path);
    assert Plug(t, path) == Plug(t1, path.up);
    if d + 1 == Depth(path) {
      DepthPlugged(t1, path.up, path.node);
    } else {
      OnPathDepth(t1, path.up, d);
    }
  }

  /** The nodes on the way down to x. */
  ghost function Way(t: Shape, x: Node): (s: set<Node>)
    requires x in Nodes(t)
    ensures s <= Nodes(t)
  {
    if x == t.node then {} else {t.node} + Way(if x in Nodes(t.left) then t.left else t.right, x)
  }

  ghost function Spine(path: Path): set<Node> {
    if path.Root? then {} else {path.node} + Spine(path.up)
  }

  lemma {:induction false} SpineOnPath(path: Path, n: Node) returns (d: nat)
    requires n in Spine(path)
    ensures d < Depth(path) && OnPath(path, d) == n
  {
    if n == path.node {
      d := Depth(path) - 1;
    } else {
      d := SpineOnPath(path.up, n);
    }
  }

  lemma {:induction false} WayPlugged(t: Shape, path: Path, x: Node)
    requires x in Nodes(t) && Apart(Plug(t, path))
    ensures x in Nodes(Plug(t, path)) && Way(Plug(t, path), x) == Way(t, x) + Spine(path)
    decreases path
  {
    PlugNodes(t, path);
    PlugApart(t, path);
    if !path.Root? {
      var t1 := Parent(t, path);
      PlugApart(t1, path.up);
      assert Apart(t1) && Way(t1, x) == {path.node} + Way(t, x);
      WayPlugged(t1, path.up, x);
    }
  }

  /** Every node on the way to x comes to stand at half its depth, but for two. */
  ghost predicate HalvesWay(before: Shape, x: Node, after: Shape) {
    && x in Nodes(before) && Nodes(after) == Nodes(before)
    && forall n <- Way(before, x) :: DepthIn(after, n) <= (DepthIn(before, n) + 1) / 2 + 2
  }

  lemma {:induction false} SplayedNodes(l: Shape, x: Node, r: Shape, path: Path)
    requires Whole(Fork(l, x, r), path)
    ensures Nodes(Splayed(l, x, r, path)) == Nodes(Fork(l, x, r)) + PathNodes(path)
    decreases path
  {
    if !path.Root? {
      ParentWhole(Fork(l, x, r), path);
      if !path.up.Root? {
        var t := TwoUp(l, x, r, path);
        ParentWhole(Parent(Fork(l, x, r), path), path.up);
        TwoUpAlike(l, x, r, path);
        SplayedNodes(t.left, x, t.right, path.up.up);
      }
    }
  }

  lemma SplayHalvesWay(l: Shape, x: Node, r: Shape, path: Path)
    requires Apart(Plug(Fork(l, x, r), path))
    ensures HalvesWay(Plug(Fork(l, x, r), path), x, Splayed(l, x, r, path))
  {
    var before, after := Plug(Fork(l, x, r), path), Splayed(l, x, r, path);
    PlugApart(Fork(l, x, r), path);
    PlugNodes(Fork(l, x, r), path);
    SplayedNodes(l, x, r, path);
    WayPlugged(Fork(l, x, r), path, x);
    forall n | n in Way(before, x)
      ensures DepthIn(after, n) <= (DepthIn(before, n) + 1) / 2 + 2
    {
      var d := SpineOnPath(path, n);
      Halved(l, x, r, path, d);
      OnPathDepth(Fork(l, x, r), path, d);
    }
  }

  // Cost. The potential of a tree is the sum of the logarithms of the sizes of all its subtrees.

  ghost function Size(t: Shape): nat {
    if t.Leaf? then 0 else Size(t.left) + 1 + Size(t.right)
  }

  /** The logarithm to base two, rounded down. */
  ghost function Halvings(n: nat): nat {
    if n < 2 then 0 else 1 + Halvings(n / 2)
  }

  lemma {:induction false} HalvingsGrow(m: nat, n: nat)
    requires m <= n
    ensures Halvings(m) <= Halvings(n)
  {
    if m >= 2 {
      HalvingsGrow(m / 2, n / 2);
    }
  }

  lemma {:induction false} HalvingsOfSum(m: nat, n: nat, s: nat)
    requires 1 <= m && 1 <= n && m + n <= s && Halvings(m) == Halvings(n)
    ensures Halvings(m) < Halvings(s)
  {
    if m >= 2 {
      HalvingsOfSum(m / 2, n / 2, s / 2);
    }
  }

  // What a logarithm is stays behind a predicate, so that proofs about trees use only its laws.

  ghost predicate IsLog(n: nat, r: nat) {
    forall k: nat :: k == n ==> r == Halvings(k)
  }

  ghost function Log(n: nat): nat {
    assert IsLog(n, Halvings(n));
    var r: nat :| IsLog(n, r);
    r
  }

  lemma LogIs(n: nat)
    ensures Log(n) == Halvings(n)
  {
  }

  lemma LogGrows(m: nat, n: nat)
    requires m <= n
    ensures Log(m) <= Log(n)
  {
    LogIs(m);
    LogIs(n);
    HalvingsGrow(m, n);
  }

  /** Of two parts one has a smaller logarithm than the whole. */
  lemma LogOfParts(m: nat, n: nat, s: nat)
    requires 1 <= m && 1 <= n && m + n <= s
    ensures Log(m) <= Log(s) && Log(n) <= Log(s) && Log(m) + Log(n) < 2 * Log(s)
  {
    LogGrows(m, s);
    LogGrows(n, s);
    if Log(m) == Log(n) {
      LogIs(m);
      LogIs(n);
      LogIs(s);
      HalvingsOfSum(m, n, s);
    }
  }

  ghost function Rank(t: Shape): nat {
    Log(Size(t))
  }

  ghost function Potential(t: Shape): nat {
    if t.Leaf? then 0 else Potential(t.left) + Rank(t) + Potential(t.right)
  }

  /** The size of the whole tree, and what the path adds to the potential of a subtree of n nodes at its end. */
  ghost function SizeAbove(path: Path, n: nat): nat
    decreases path
  {
    if path.Root? then n
    else SizeAbove(path.up, n + 1 + Size(if path.Left? then path.right else path.left))
  }

  ghost function PotentialAbove(path: Path, n: nat): nat
    decreases path
  {
    if path.Root? then 0
    else
      var side := if path.Left? then path.right else path.left;
      Potential(side) + Log(n + 1 + Size(side)) + PotentialAbove(path.up, n + 1 + Size(side))
  }

  lemma {:induction false} PlugPotential(t: Shape, path: Path)
    ensures Size(Plug(t, path)) == SizeAbove(path, Size(t)) >= Size(t)
    ensures Potential(Plug(t, path)) == Potential(t) + PotentialAbove(path, Size(t))
    decreases path
  {
    if !path.Root? {
      PlugPotential(Parent(t, path), path.up);
    }
  }

  /** The three sizes that count in two steps up: x before, and its two new neighbours, which are apart from it or from
      each other, in a tree of s nodes. */
  lemma StepCost(x: nat, p0: nat, p1: nat, g1: nat, s: nat)
    requires 1 <= x <= p0 <= s && 1 <= p1 <= s && 1 <= g1 <= s
    requires x + g1 <= s || p1 + g1 <= s
    ensures 1 + Log(p1) + Log(g1) + 3 * Log(x) <= Log(x) + Log(p0) + 3 * Log(s)
  {
    LogGrows(x, p0);
    LogGrows(x, s);
    LogGrows(p1, s);
    LogGrows(g1, s);
    if x + g1 <= s {
      LogOfParts(x, g1, s);
    } else {
      LogOfParts(p1, g1, s);
    }
  }

  /** The sum of the potentials of a tree whose parts are known. */
  lemma Summed(a: Shape, n: Node, b: Shape)
    ensures Size(Fork(a, n, b)) == Size(a) + 1 + Size(b)
    ensures Potential(Fork(a, n, b)) == Potential(a) + Log(Size(a) + 1 + Size(b)) + Potential(b)
  {
  }

  /** A subtree g becomes t, with what stood before at its end now at its top, at the cost of one. */
  ghost predicate Cheap(before: Shape, g: Shape, t: Shape) {
    Size(t) == Size(g) && 1 + Potential(t) + 3 * Rank(before) <= Potential(g) + 3 * Rank(t)
  }

  lemma LeftLeftCost(l: Shape, x: Node, r: Shape, p: Node, pr: Shape, g: Node, gr: Shape)
    ensures Cheap(Fork(l, x, r), Fork(Fork(Fork(l, x, r), p, pr), g, gr), Fork(l, x, Fork(r, p, Fork(pr, g, gr))))
  {
    var here, low := Fork(l, x, r), Fork(pr, g, gr);
    var side, far := Fork(here, p, pr), Fork(r, p, low);
    Summed(l, x, r);
    Summed(here, p, pr);
    Summed(side, g, gr);
    Summed(pr, g, gr);
    Summed(r, p, low);
    Summed(l, x, far);
    StepCost(Size(here), Size(side), Size(far), Size(low), Size(Fork(l, x, far)));
  }

  lemma RightRightCost(l: Shape, x: Node, r: Shape, pl: Shape, p: Node, gl: Shape, g: Node)
    ensures Cheap(Fork(l, x, r), Fork(gl, g, Fork(pl, p, Fork(l, x, r))), Fork(Fork(Fork(gl, g, pl), p, l), x, r))
  {
    var here, low := Fork(l, x, r), Fork(gl, g, pl);
    var side, far := Fork(pl, p, here), Fork(low, p, l);
    Summed(l, x, r);
    Summed(pl, p, here);
    Summed(gl, g, side);
    Summed(gl, g, pl);
    Summed(low, p, l);
    Summed(far, x, r);
    StepCost(Size(here), Size(side), Size(far), Size(low), Size(Fork(far, x, r)));
  }

  lemma LeftRightCost(l: Shape, x: Node, r: Shape, p: Node, pr: Shape, gl: Shape, g: Node)
    ensures Cheap(Fork(l, x, r), Fork(gl, g, Fork(Fork(l, x, r), p, pr)), Fork(Fork(gl, g, l), x, Fork(r, p, pr)))
  {
    var here, near, far := Fork(l, x, r), Fork(r, p, pr), Fork(gl, g, l);
    var side := Fork(here, p, pr);
    Summed(l, x, r);
    Summed(here, p, pr);
    Summed(gl, g, side);
    Summed(r, p, pr);
    Summed(gl, g, l);
    Summed(far, x, near);
    StepCost(Size(here), Size(side), Size(near), Size(far), Size(Fork(far, x, near)));
  }

  lemma RightLeftCost(l: Shape, x: Node, r: Shape, pl: Shape, p: Node, g: Node, gr: Shape)
    ensures Cheap(Fork(l, x, r), Fork(Fork(pl, p, Fork(l, x, r)), g, gr), Fork(Fork(pl, p, l), x, Fork(r, g, gr)))
  {
    var here, near, far := Fork(l, x, r), Fork(pl, p, l), Fork(r, g, gr);
    var side := Fork(pl, p, here);
    Summed(l, x, r);
    Summed(pl, p, here);
    Summed(side, g, gr);
    Summed(pl, p, l);
    Summed(r, g, gr);
    Summed(near, x, far);
    StepCost(Size(here), Size(side), Size(near), Size(far), Size(Fork(near, x, far)));
  }

  lemma TwoUpCost(l: Shape, x: Node, r: Shape, path: Path)
    requires !path.Root? && !path.up.Root?
    ensures Cheap(Fork(l, x, r), Parent(Parent(Fork(l, x, r), path), path.up), TwoUp(l, x, r, path))
  {
    match path
    case Left(p, pr, Left(g, gr, _)) => LeftLeftCost(l, x, r, p, pr, g, gr);
    case Left(p, pr, Right(gl, g, _)) => LeftRightCost(l, x, r, p, pr, gl, g);
    case Right(pl, p, Left(g, gr, _)) => RightLeftCost(l, x, r, pl, p, g, gr);
    case Right(pl, p, Right(gl, g, _)) => RightRightCost(l, x, r, pl, p, gl, g);
  }

  lemma OneUpCost(l: Shape, x: Node, r: Shape, path: Path)
    requires !path.Root? && path.up.Root?
    ensures var t, g := OneUp(l, x, r, path), Parent(Fork(l, x, r), path);
      && Size(t) == Size(g)
      && Potential(t) + Rank(Fork(l, x, r)) <= Potential(g) + Rank(t)
      && Rank(Fork(l, x, r)) <= Rank(t)
  {
    Summed(l, x, r);
    match path
    case Left(p, pr, _) =>
      var low := Fork(r, p, pr);
      Summed(Fork(l, x, r), p, pr);
      Summed(r, p, pr);
      Summed(l, x, low);
      LogGrows(Size(low), Size(Fork(l, x, low)));
      LogGrows(Size(Fork(l, x, r)), Size(Fork(l, x, low)));
    case Right(pl, p, _) =>
      var low := Fork(pl, p, l);
      Summed(pl, p, Fork(l, x, r));
      Summed(pl, p, l);
      Summed(low, x, r);
      LogGrows(Size(low), Size(Fork(low, x, r)));
      LogGrows(Size(Fork(l, x, r)), Size(Fork(low, x, r)));
  }

  /** The access lemma: the steps up and what they add to the potential are at most three times the rank that x gains,
      and one. */
  lemma {:induction false} AccessLemma(l: Shape, x: Node, r: Shape, path: Path)
    ensures var before, after := Plug(Fork(l, x, r), path), Splayed(l, x, r, path);
      && Size(after) == Size(before)
      && (Depth(path) + 1) / 2 + Potential(after) + 3 * Rank(Fork(l, x, r)) <= Potential(before) + 3 * Rank(after) + 1
    decreases path
  {
    if !path.Root? {
      if path.up.Root? {
        OneUpCost(l, x, r, path);
      } else {
        TwoUpCost(l, x, r, path);
        FartherUp(l, x, r, path);
        var t := TwoUp(l, x, r, path);
        AccessLemma(t.left, x, t.right, path.up.up);
      }
    }
  }

  /** What the two steps do to the whole tree, they do to the subtree where they are taken. */
  lemma FartherUp(l: Shape, x: Node, r: Shape, path: Path)
    requires !path.Root? && !path.up.Root?
    requires Size(TwoUp(l, x, r, path)) == Size(Parent(Parent(Fork(l, x, r), path), path.up))
    ensures var t, g := TwoUp(l, x, r, path), Parent(Parent(Fork(l, x, r), path), path.up);
      var after, before := Plug(t, path.up.up), Plug(Fork(l, x, r), path);
      Size(after) == Size(before) && Potential(after) - Potential(before) == Potential(t) - Potential(g)
  {
    var g := Parent(Parent(Fork(l, x, r), path), path.up);
    PlugPotential(TwoUp(l, x, r, path), path.up.up);
    PlugPotential(g, path.up.up);
    assert Plug(g, path.up.up) == Plug(Fork(l, x, r), path);
  }

  /** One access, for every two steps of the way to x, in terms of the whole tree only. */
  ghost predicate CheapAccess(before: Shape, x: Node, after: Shape) {
    && x in Nodes(before) && Size(after) == Size(before)
    && (DepthIn(before, x) + 1) / 2 + Potential(after) <= Potential(before) + 3 * Log(Size(before)) + 1
  }

  lemma SplayIsCheap(l: Shape, x: Node, r: Shape, path: Path)
    requires Apart(Plug(Fork(l, x, r), path))
    ensures CheapAccess(Plug(Fork(l, x, r), path), x, Splayed(l, x, r, path))
  {
    AccessLemma(l, x, r, path);
    DepthPlugged(Fork(l, x, r), path, x);
  }

  lemma Distributed(a: nat, b: nat, k: nat)
    ensures (a + 1 + b) * k == a * k + k + b * k
  {
  }

  /** No tree has more potential than its size times its rank. */
  lemma {:induction false} PotentialBound(t: Shape, n: nat)
    requires Size(t) <= n
    ensures Potential(t) <= Size(t) * Log(n)
  {
    if t.Fork? {
      PotentialBound(t.left, n);
      PotentialBound(t.right, n);
      LogGrows(Size(t), n);
      Distributed(Size(t.left), Size(t.right), Log(n));
    }
  }
}
