/** The search tree with parent pointers: rotations, splaying, insertion, deletion and search in place. */
module Tree {
  import opened TreeShape
  import opened TreeSplay

  datatype Status = Ok | NodeExists | NodeNotFound | OutOfMemory | InvalidRotation

  /** A subtree at the end of a path, with all its pointers and those of the path. */
  ghost predicate Standing(t: Shape, path: Path)
    reads Nodes(t), PathNodes(path)
  {
    Apart(t) && PathApart(path) && Nodes(t) !! PathNodes(path) && Linked(t, Holder(path)) && Hung(path, Top(t))
  }

  lemma TakenApart(t: Shape, path: Path)
    ensures Apart(Plug(t, path)) && Linked(Plug(t, path), null) <==> Standing(t, path)
    ensures Nodes(Plug(t, path)) == Nodes(t) + PathNodes(path)
    ensures Keys(Plug(t, path)) == Before(path) + Keys(t) + After(path)
  {
    PlugApart(t, path);
    PlugLinked(t, path);
    PlugNodes(t, path);
    PlugKeys(t, path);
  }

  /** The two ways to hang three subtrees on two nodes. */
  lemma TurnedAlike(a: Shape, y: Node, b: Shape, x: Node, c: Shape)
    ensures Keys(Fork(Fork(a, y, b), x, c)) == Keys(Fork(a, y, Fork(b, x, c)))
    ensures Nodes(Fork(Fork(a, y, b), x, c)) == Nodes(Fork(a, y, Fork(b, x, c)))
  {
    var ka, kb, kc := Keys(a), Keys(b), Keys(c);
    assert (ka + [y.key] + kb) + [x.key] + kc == ka + [y.key] + (kb + [x.key] + kc);
  }

  /** y, or nothing, takes the place of x below the holder of x. */
  method Rehang(x: Node, y: Node?, ghost path: Path)
    requires x.p == Holder(path) && Hung(path, x) && PathApart(path)
    requires x !in PathNodes(path) && y !in PathNodes(path)
    modifies if y == null then {} else {y}, if path.Root? then {} else {path.node}
    ensures Hung(path, y)
    ensures y != null ==> y.p == old(x.p) && y.left == old(y.left) && y.right == old(y.right)
  {
    if y != null {
      y.p := x.p;
    }
    if x.p != null {
      if x.p.right == x {
        x.p.right := y;
      } else {
        x.p.left := y;
      }
    }
  }

  /** A new node hangs where its key belongs. */
  method HangNew(x: Node, ghost path: Path)
    requires x.p == Holder(path) && Hung(path, null) && PathApart(path) && x !in PathNodes(path)
    requires !path.Root? ==> (path.node.key > x.key <==> path.Left?) && path.node.key != x.key
    modifies if path.Root? then {} else {path.node}
    ensures Hung(path, x)
    ensures x.p == old(x.p)
  {
    if x.p != null {
      if x.key < x.p.key {
        x.p.left := x;
      } else if x.key > x.p.key {
        x.p.right := x;
      }
    }
  }

  method NewAt(key: nat, parent: Node?, ghost path: Path) returns (x: Node)
    requires Standing(Leaf, path) && parent == Holder(path)
    requires !path.Root? ==> (path.node.key > key <==> path.Left?) && path.node.key != key
    modifies if path.Root? then {} else {path.node}
    ensures fresh(x) && x.key == key && Standing(Fork(Leaf, x, Leaf), path)
  {
    PathExisting(path);
    x := new Node(key, parent);
    HangNew(x, path);
  }

  /** The parent pointer of a subtree, if there is one, is set. */
  method Reparent(node: Node?, parent: Node?, ghost t: Shape, ghost from: Node)
    requires node == Top(t) && Linked(t, from) && Apart(t)
    modifies if node == null then {} else {node}
    ensures Linked(t, parent)
    ensures node != null ==> node.left == old(node.left) && node.right == old(node.right)
  {
    if node != null {
      node.p := parent;
    }
  }

  /** Three subtrees and two nodes, none of them twice. */
  ghost predicate Parts(a: Shape, y: Node, b: Shape, x: Node, c: Shape) {
    && Apart(a) && Apart(b) && Apart(c) && x != y
    && Nodes(a) !! Nodes(b) && Nodes(a) !! Nodes(c) && Nodes(b) !! Nodes(c)
    && x !in Nodes(a) + Nodes(b) + Nodes(c) && y !in Nodes(a) + Nodes(b) + Nodes(c)
  }

  lemma PartsTurned(a: Shape, y: Node, b: Shape, x: Node, c: Shape)
    ensures Parts(a, y, b, x, c) <==> Apart(Fork(Fork(a, y, b), x, c))
    ensures Parts(a, y, b, x, c) <==> Apart(Fork(a, y, Fork(b, x, c)))
  {
    assert Apart(Fork(a, y, b)) <==> Apart(a) && Apart(b) && y !in Nodes(a) + Nodes(b) && Nodes(a) !! Nodes(b);
    assert Apart(Fork(b, x, c)) <==> Apart(b) && Apart(c) && x !in Nodes(b) + Nodes(c) && Nodes(b) !! Nodes(c);
  }

  lemma TopIn(t: Shape)
    ensures t.Fork? ==> t.node in Nodes(t)
  {
  }

  /** x, whose left child y has just taken its place, becomes the right child of y. */
  method TurnRight(x: Node, ghost a: Shape, ghost y: Node, ghost b: Shape, ghost c: Shape)
    requires Parts(a, y, b, x, c)
    requires x.left == y && x.right == Top(c) && y.left == Top(a) && y.right == Top(b)
    requires Linked(a, y) && Linked(b, y) && Linked(c, x)
    modifies x, y, if b.Leaf? then {} else {b.node}
    ensures Linked(Fork(a, y, Fork(b, x, c)), old(y.p))
  {
    Existing(a);
    Existing(c);
    TopIn(b);
    Reparent(x.left.right, x, b, y);
    assert Linked(a, y) && Linked(c, x);
    Existing(b);
    x.p := x.left;
    x.left := x.left.right;
    x.p.right := x;
    assert Linked(a, y) && Linked(b, x) && Linked(c, x);
  }

  /** x, whose right child y has just taken its place, becomes the left child of y. */
  method TurnLeft(x: Node, ghost a: Shape, ghost b: Shape, ghost y: Node, ghost c: Shape)
    requires Parts(a, x, b, y, c)
    requires x.left == Top(a) && x.right == y && y.left == Top(b) && y.right == Top(c)
    requires Linked(a, x) && Linked(b, y) && Linked(c, y)
    modifies x, y, if b.Leaf? then {} else {b.node}
    ensures Linked(Fork(Fork(a, x, b), y, c), old(y.p))
  {
    Existing(a);
    Existing(c);
    TopIn(b);
    Reparent(x.right.left, x, b, y);
    assert Linked(a, x) && Linked(c, y);
    Existing(b);
    x.p := x.right;
    x.right := x.right.left;
    x.p.left := x;
    assert Linked(a, x) && Linked(b, x) && Linked(c, y);
  }

  method RotateRight(x: Node, ghost a: Shape, ghost y: Node, ghost b: Shape, ghost c: Shape, ghost path: Path)
    requires Standing(Fork(Fork(a, y, b), x, c), path)
    modifies Nodes(Fork(Fork(a, y, b), x, c)) + PathNodes(path)
    ensures Standing(Fork(a, y, Fork(b, x, c)), path)
  {
    Existing(Fork(Fork(a, y, b), x, c));
    PathExisting(path);
    PartsTurned(a, y, b, x, c);
    assert Linked(Fork(a, y, b), x) && Linked(c, x);
    Rehang(x, x.left, path);
    assert Linked(a, y) && Linked(b, y) && Linked(c, x);
    TurnRight(x, a, y, b, c);
    assert Hung(path, y);
  }

  method RotateLeft(x: Node, ghost a: Shape, ghost b: Shape, ghost y: Node, ghost c: Shape, ghost path: Path)
    requires Standing(Fork(a, x, Fork(b, y, c)), path)
    modifies Nodes(Fork(a, x, Fork(b, y, c))) + PathNodes(path)
    ensures Standing(Fork(Fork(a, x, b), y, c), path)
  {
    Existing(Fork(a, x, Fork(b, y, c)));
    PathExisting(path);
    PartsTurned(a, x, b, y, c);
    assert Linked(Fork(b, y, c), x) && Linked(a, x);
    Rehang(x, x.right, path);
    assert Linked(a, x) && Linked(b, y) && Linked(c, y);
    TurnLeft(x, a, b, y, c);
    assert Hung(path, y);
  }

  /** What the pointers around a node say about the path to it. */
  lemma Here(t: Shape, l: Shape, x: Node, r: Shape, path: Path)
    requires t == Plug(Fork(l, x, r), path) && Apart(t) && Linked(t, null)
    ensures x.p == Holder(path) && x.left == Top(l) && x.right == Top(r)
    ensures !path.Root? ==>
      && (path.node.left == x <==> path.Left?) && (path.node.right == x <==> path.Right?)
      && path.node.p == Holder(path.up)
  {
    TakenApart(Fork(l, x, r), path);
  }

  /** y, with at most one child, leaves the tree; its child takes its place. */
  method Splice(y: Node, x: Node?, ghost l: Shape, ghost r: Shape, ghost path: Path)
    requires Standing(Fork(l, y, r), path) && (l.Leaf? || r.Leaf?)
    requires x == if l.Fork? then l.node else Top(r)
    modifies if x == null then {} else {x}, if path.Root? then {} else {path.node}
    ensures Standing(if l.Fork? then l else r, path)
  {
    ghost var t := if l.Fork? then l else r;
    Existing(Fork(l, y, r));
    PathExisting(path);
    TopIn(t);
    assert Linked(t, y) && Apart(t) && Nodes(t) !! PathNodes(path);
    Rehang(y, x, path);
    assert t.Fork? ==> Linked(t.left, x) && Linked(t.right, x);
  }

  /** y takes over both subtrees of z. */
  method TakeChildren(z: Node, y: Node, ghost l: Shape, ghost r: Shape)
    requires Apart(Fork(l, z, r)) && z.left == Top(l) && z.right == Top(r) && Linked(l, z) && Linked(r, z)
    requires y !in Nodes(Fork(l, z, r))
    modifies y, if l.Leaf? then {} else {l.node}, if r.Leaf? then {} else {r.node}
    ensures y.left == Top(l) && y.right == Top(r) && Linked(l, y) && Linked(r, y)
  {
    Existing(Fork(l, z, r));
    y.left := z.left;
    Reparent(y.left, y, l, z);
    y.right := z.right;
    Reparent(y.right, y, r, z);
  }

  /** y takes the place of z, with both its subtrees. */
  method Replace(z: Node, y: Node, ghost l: Shape, ghost r: Shape, ghost path: Path)
    requires Standing(Fork(l, z, r), path) && y !in Nodes(Fork(l, z, r)) + PathNodes(path)
    modifies y, if l.Leaf? then {} else {l.node}, if r.Leaf? then {} else {r.node}
    modifies if path.Root? then {} else {path.node}
    ensures Standing(Fork(l, y, r), path)
  {
    Existing(Fork(l, z, r));
    PathExisting(path);
    TopIn(l);
    TopIn(r);
    TakeChildren(z, y, l, r);
    assert Hung(path, z);
    Rehang(z, y, path);
  }

  /** Only a change at the very top changes the top. */
  lemma {:induction false} RootStays(t: Shape, u: Shape, path: Path)
    ensures Top(Plug(t, path)) == if path.Root? then Top(t) else Top(Plug(u, path))
    decreases path
  {
    match path
    case Root =>
    case Left(n, r, up) => RootStays(Fork(t, n, r), Fork(u, n, r), up);
    case Right(l, n, up) => RootStays(Fork(l, n, t), Fork(l, n, u), up);
  }

  /** after is before with one key less. */
  ghost predicate Without(after: seq<nat>, before: seq<nat>, key: nat) {
    Increasing(after) && |after| + 1 == |before| && forall k :: k in after <==> k in before && k != key
  }

  lemma OneKeyLess(a: seq<nat>, key: nat, b: seq<nat>)
    requires Increasing(a + [key] + b)
    ensures Without(a + b, a + [key] + b, key)
  {
    IncreasingWithout(a, key, b);
  }

  lemma OneChildLess(l: Shape, z: Node, r: Shape, path: Path)
    requires Increasing(Keys(Plug(Fork(l, z, r), path))) && (l.Leaf? || r.Leaf?)
    ensures Without(Keys(Plug(if l.Fork? then l else r, path)), Keys(Plug(Fork(l, z, r), path)), z.key)
  {
    KeysAround(l, z, r, path);
    OneKeyLess(Before(path) + Keys(l), z.key, Keys(r) + After(path));
    var t := if l.Fork? then l else r;
    PlugKeys(t, path);
    assert (Before(path) + Keys(l)) + (Keys(r) + After(path)) == Before(path) + Keys(t) + After(path);
  }

  /** The successor y of z, seen from the root, before and after it leaves its place. */
  lemma SuccessorPlace(l: Shape, z: Node, r: Shape, path: Path, y: Node, yr: Shape, yp: Path)
    requires r == Plug(Fork(Leaf, y, yr), yp)
    ensures Plug(Fork(l, z, r), path) == Plug(Fork(Leaf, y, yr), Join(yp, Right(l, z, path)))
    ensures Plug(yr, Join(yp, Right(l, z, path))) == Plug(Fork(l, z, Plug(yr, yp)), path)
  {
    PlugJoin(Fork(Leaf, y, yr), yp, Right(l, z, path));
    PlugJoin(yr, yp, Right(l, z, path));
  }

  lemma SuccessorOut(l: Shape, z: Node, r: Shape, path: Path, y: Node, yr: Shape, yp: Path)
    requires r == Plug(Fork(Leaf, y, yr), yp) && Apart(Plug(Fork(l, z, r), path))
    ensures Nodes(Plug(Fork(l, z, Plug(yr, yp)), path)) == Nodes(Plug(Fork(l, z, r), path)) - {y}
    ensures y in Nodes(Plug(Fork(l, z, r), path)) && y != z
  {
    var place := Join(yp, Right(l, z, path));
    SuccessorPlace(l, z, r, path, y, yr, yp);
    PlugApart(Fork(Leaf, y, yr), place);
    PlugNodes(Fork(Leaf, y, yr), place);
    PlugNodes(yr, place);
    PlugNodes(Fork(l, z, Plug(yr, yp)), path);
  }

  lemma LeftmostFirst(y: Node, yr: Shape, yp: Path)
    requires Leftmost(yp)
    ensures Keys(Plug(Fork(Leaf, y, yr), yp)) == [y.key] + Keys(Plug(yr, yp))
  {
    PlugKeys(Fork(Leaf, y, yr), yp);
    PlugKeys(yr, yp);
    NothingBefore(yp);
    assert Keys(Fork(Leaf, y, yr)) == [y.key] + Keys(yr);
  }

  lemma Replaced(a: seq<nat>, z: nat, y: nat, rest: seq<nat>, b: seq<nat>)
    requires Increasing(a + [z] + ([y] + rest + b))
    ensures Without(a + [y] + (rest + b), a + [z] + ([y] + rest + b), z)
  {
    OneKeyLess(a, z, [y] + rest + b);
    assert a + ([y] + rest + b) == a + [y] + (rest + b);
  }

  /** The keys with y in the place of z are the keys without that of z. */
  lemma SuccessorKeys(l: Shape, z: Node, r: Shape, path: Path, y: Node, yr: Shape, yp: Path)
    requires r == Plug(Fork(Leaf, y, yr), yp) && Leftmost(yp) && Increasing(Keys(Plug(Fork(l, z, r), path)))
    ensures Without(Keys(Plug(Fork(l, y, Plug(yr, yp)), path)), Keys(Plug(Fork(l, z, r), path)), z.key)
  {
    LeftmostFirst(y, yr, yp);
    KeysAround(l, z, r, path);
    KeysAround(l, y, Plug(yr, yp), path);
    Replaced(Before(path) + Keys(l), z.key, y.key, Keys(Plug(yr, yp)), After(path));
  }

  /** The top of the tree after a rotation at x is the old root, unless x was the root. */
  lemma Turned(x: Node, l: Shape, r: Shape, path: Path, turned: Shape, root: Node?)
    requires root == Top(Plug(Fork(l, x, r), path)) && turned.Fork? && turned.node != x
    ensures Top(Plug(turned, path)) == root <==> !path.Root?
  {
    RootStays(turned, Fork(l, x, r), path);
  }

  /** The global root, and the shape the pointers realise. */
  class Tree {
    var root: Node?
    ghost var shape: Shape

    /** The pointers realise the shape; root may be elsewhere. */
    ghost predicate Realised()
      reads this, Nodes(shape)
    {
      Linked(shape, null) && Apart(shape)
    }

    ghost predicate Valid()
      reads this, Nodes(shape)
    {
      Realised() && root == Top(shape)
    }

    ghost function Contents(): seq<nat>
      reads this
    {
      Keys(shape)
    }

    constructor ()
      ensures Valid() && Contents() == []
    {
      root := null;
      shape := Leaf;
    }

    method RightRotate(x: Node, ghost l: Shape, ghost r: Shape, ghost path: Path) returns (status: Status)
      requires Realised() && shape == Plug(Fork(l, x, r), path)
      modifies this`shape, Nodes(shape)
      ensures Realised() && Nodes(shape) == old(Nodes(shape)) && Contents() == old(Contents())
      ensures status == if l.Leaf? then InvalidRotation else Ok
      ensures shape == if l.Leaf? then old(shape) else Plug(Fork(l.left, l.node, Fork(l.right, x, r)), path)
    {
      TakenApart(Fork(l, x, r), path);
      if x.left == null {
        return InvalidRotation;
      }
      RotateRight(x, l.left, l.node, l.right, r, path);
      TurnedAlike(l.left, l.node, l.right, x, r);
      ghost var turned := Fork(l.left, l.node, Fork(l.right, x, r));
      TakenApart(turned, path);
      shape := Plug(turned, path);
      return Ok;
    }

    method LeftRotate(x: Node, ghost l: Shape, ghost r: Shape, ghost path: Path) returns (status: Status)
      requires Realised() && shape == Plug(Fork(l, x, r), path)
      modifies this`shape, Nodes(shape)
      ensures Realised() && Nodes(shape) == old(Nodes(shape)) && Contents() == old(Contents())
      ensures status == if r.Leaf? then InvalidRotation else Ok
      ensures shape == if r.Leaf? then old(shape) else Plug(Fork(Fork(l, x, r.left), r.node, r.right), path)
    {
      TakenApart(Fork(l, x, r), path);
      if x.right == null {
        return InvalidRotation;
      }
      RotateLeft(x, l, r.left, r.node, r.right, path);
      TurnedAlike(l, x, r.left, r.node, r.right);
      ghost var turned := Fork(Fork(l, x, r.left), r.node, r.right);
      TakenApart(turned, path);
      shape := Plug(turned, path);
      return Ok;
    }

    /** x, a child of the top node, goes to the top. */
    method Zig(x: Node, ghost l: Shape, ghost r: Shape, ghost path: Path) returns (ghost l1: Shape, ghost r1: Shape)
      requires Realised() && shape == Plug(Fork(l, x, r), path) && !path.Root? && x.p == path.node
      modifies this`shape, Nodes(shape)
      ensures Realised() && Nodes(shape) == old(Nodes(shape)) && Contents() == old(Contents())
      ensures shape == Plug(Fork(l1, x, r1), path.up)
      ensures path.up.Root? ==> Fork(l1, x, r1) == OneUp(l, x, r, path)
    {
      Here(shape, l, x, r, path);
      if x.p.left == x {
        var status := RightRotate(x.p, Fork(l, x, r), path.right, path.up);
        l1, r1 := l, Fork(r, path.node, path.right);
      } else if x.p.right == x {
        var status := LeftRotate(x.p, path.left, Fork(l, x, r), path.up);
        l1, r1 := Fork(path.left, path.node, l), r;
      }
    }

    /** x, a left child below its grandparent g, goes up two steps. */
    method ZigFromLeft(x: Node, ghost l: Shape, ghost r: Shape, ghost p: Node, ghost pr: Shape, ghost up: Path)
      returns (ghost l1: Shape, ghost r1: Shape)
      requires Realised() && shape == Plug(Fork(l, x, r), Left(p, pr, up)) && !up.Root? && x.p == p && p.p == up.node
      modifies this`shape, Nodes(shape)
      ensures Realised() && Nodes(shape) == old(Nodes(shape)) && Contents() == old(Contents())
      ensures shape == Plug(Fork(l1, x, r1), up.up) && Fork(l1, x, r1) == TwoUp(l, x, r, Left(p, pr, up))
    {
      ghost var g := up.node;
      Here(shape, Fork(l, x, r), p, pr, up);
      if x.p.p.left == x.p {
        var status := RightRotate(x.p.p, Fork(Fork(l, x, r), p, pr), up.right, up.up);
        Here(shape, l, x, r, Left(p, Fork(pr, g, up.right), up.up));
        status := RightRotate(x.p, Fork(l, x, r), Fork(pr, g, up.right), up.up);
        l1, r1 := l, Fork(r, p, Fork(pr, g, up.right));
      } else {
        var status := RightRotate(x.p, Fork(l, x, r), pr, up);
        Here(shape, l, x, Fork(r, p, pr), up);
        status := LeftRotate(x.p, up.left, Fork(l, x, Fork(r, p, pr)), up.up);
        l1, r1 := Fork(up.left, g, l), Fork(r, p, pr);
      }
    }

    /** x, a right child below its grandparent g, goes up two steps. */
    method ZigFromRight(x: Node, ghost l: Shape, ghost r: Shape, ghost pl: Shape, ghost p: Node, ghost up: Path)
      returns (ghost l1: Shape, ghost r1: Shape)
      requires Realised() && shape == Plug(Fork(l, x, r), Right(pl, p, up)) && !up.Root? && x.p == p && p.p == up.node
      modifies this`shape, Nodes(shape)
      ensures Realised() && Nodes(shape) == old(Nodes(shape)) && Contents() == old(Contents())
      ensures shape == Plug(Fork(l1, x, r1), up.up) && Fork(l1, x, r1) == TwoUp(l, x, r, Right(pl, p, up))
    {
      ghost var g := up.node;
      Here(shape, pl, p, Fork(l, x, r), up);
      if x.p.p.right == x.p {
        var status := LeftRotate(x.p.p, up.left, Fork(pl, p, Fork(l, x, r)), up.up);
        Here(shape, l, x, r, Right(Fork(up.left, g, pl), p, up.up));
        status := LeftRotate(x.p, Fork(up.left, g, pl), Fork(l, x, r), up.up);
        l1, r1 := Fork(Fork(up.left, g, pl), p, l), r;
      } else {
        var status := LeftRotate(x.p, pl, Fork(l, x, r), up);
        Here(shape, Fork(pl, p, l), x, r, up);
        status := RightRotate(x.p, Fork(Fork(pl, p, l), x, r), up.right, up.up);
        l1, r1 := Fork(pl, p, l), Fork(r, g, up.right);
      }
    }

    /** x comes to the root, by rotations that keep the keys in order, two steps at a time. */
    method SplayUp(x: Node, ghost l0: Shape, ghost r0: Shape, ghost path0: Path)
      requires Valid() && shape == Plug(Fork(l0, x, r0), path0)
      modifies this, Nodes(shape)
      ensures Valid() && root == x && Nodes(shape) == old(Nodes(shape)) && Contents() == old(Contents())
      ensures shape == Splayed(l0, x, r0, path0)
    {
      ghost var l, r, path := l0, r0, path0;
      ghost var nodes, keys, goal := Nodes(shape), Contents(), Splayed(l0, x, r0, path0);
      Here(shape, l, x, r, path);
      while x.p != null
        invariant Realised() && Nodes(shape) == nodes && Contents() == keys
        invariant shape == Plug(Fork(l, x, r), path) && x.p == Holder(path)
        invariant Splayed(l, x, r, path) == goal
        decreases Depth(path)
      {
        Here(shape, l, x, r, path);
        if x.p.p == null {
          l, r := Zig(x, l, r, path);
          path := path.up;
          break;
        } else if x.p.left == x {
          l, r := ZigFromLeft(x, l, r, path.node, path.right, path.up);
        } else {
          l, r := ZigFromRight(x, l, r, path.left, path.node, path.up);
        }
        assert Depth(path) == Depth(path.up.up) + 2;
        path := path.up.up;
        Here(shape, l, x, r, path);
      }
      root := x;
    }

    /** The way to x is halved, and what it costs beyond three logarithms is paid for by the potential. */
    method Splay(x: Node, ghost l: Shape, ghost r: Shape, ghost path: Path)
      requires Valid() && shape == Plug(Fork(l, x, r), path)
      modifies this, Nodes(shape)
      ensures Valid() && root == x && Nodes(shape) == old(Nodes(shape)) && Contents() == old(Contents())
      ensures shape == Splayed(l, x, r, path)
      ensures HalvesWay(old(shape), x, shape) && CheapAccess(old(shape), x, shape)
    {
      SplayHalvesWay(l, x, r, path);
      SplayIsCheap(l, x, r, path);
      SplayUp(x, l, r, path);
    }

    /** The node with the key, if there is one, and where it is. */
    method Find(key: nat) returns (current: Node?, ghost l: Shape, ghost r: Shape, ghost path: Path)
      requires Valid() && Increasing(Contents())
      ensures current == null <==> key !in Contents()
      ensures current != null ==> current.key == key && shape == Plug(Fork(l, current, r), path)
      ensures current != null ==> (path.Root? <==> root.key == key)
    {
      Existing(shape);
      current := root;
      ghost var t := shape;
      l, r, path := Leaf, Leaf, Root;
      while current != null
        invariant current == Top(t) && shape == Plug(t, path) && Fits(key, path)
        invariant if path.Root? then t == shape else root != null && root.key != key
        decreases t
      {
        assert t == Fork(t.left, t.node, t.right);
        Here(shape, t.left, t.node, t.right, path);
        FitsBelow(key, t.left, t.node, t.right, path);
        if key == current.key {
          l, r := t.left, t.right;
          FitsExactly(key, t, path);
          return;
        } else if key < current.key {
          current := current.left;
          t, path := t.left, Left(t.node, t.right, path);
        } else {
          current := current.right;
          t, path := t.right, Right(t.left, t.node, path);
        }
      }
      FitsExactly(key, t, path);
    }

    method SplayNode(key: nat)
      requires Valid() && Increasing(Contents())
      modifies this, Nodes(shape)
      ensures Valid() && Contents() == old(Contents()) && Nodes(shape) == old(Nodes(shape))
      ensures key in Contents() ==>
        && root != null && root.key == key && HalvesWay(old(shape), root, shape) && CheapAccess(old(shape), root, shape)
      ensures key !in Contents() ==> root == old(root) && shape == old(shape)
    {
      Existing(shape);
      ghost var l, r, path;
      var x: Node?;
      x, l, r, path := Find(key);
      if x != null {
        Splay(x, l, r, path);
      }
    }

    /** The rotation leaves root alone: the tree stays whole exactly if it was not the root that turned. */
    method RightRotateNode(key: nat) returns (status: Status)
      requires Valid() && Increasing(Contents())
      modifies this`shape, Nodes(shape)
      ensures Realised() && Contents() == old(Contents()) && Nodes(shape) == old(Nodes(shape))
      ensures status == NodeNotFound <==> key !in Contents()
      ensures old(root) != null && old(root).key == key ==> (status == Ok <==> old(root.left) != null)
      ensures Valid() <==> status != Ok || old(root).key != key
    {
      Existing(shape);
      ghost var l, r, path;
      var x: Node?;
      x, l, r, path := Find(key);
      if x == null {
        return NodeNotFound;
      }
      Here(shape, l, x, r, path);
      TakenApart(Fork(l, x, r), path);
      status := RightRotate(x, l, r, path);
      if status == Ok {
        Turned(x, l, r, path, Fork(l.left, l.node, Fork(l.right, x, r)), root);
      }
    }

    method LeftRotateNode(key: nat) returns (status: Status)
      requires Valid() && Increasing(Contents())
      modifies this`shape, Nodes(shape)
      ensures Realised() && Contents() == old(Contents()) && Nodes(shape) == old(Nodes(shape))
      ensures status == NodeNotFound <==> key !in Contents()
      ensures old(root) != null && old(root).key == key ==> (status == Ok <==> old(root.right) != null)
      ensures Valid() <==> status != Ok || old(root).key != key
    {
      Existing(shape);
      ghost var l, r, path;
      var x: Node?;
      x, l, r, path := Find(key);
      if x == null {
        return NodeNotFound;
      }
      Here(shape, l, x, r, path);
      TakenApart(Fork(l, x, r), path);
      status := LeftRotate(x, l, r, path);
      if status == Ok {
        Turned(x, l, r, path, Fork(Fork(l, x, r.left), r.node, r.right), root);
      }
    }

    /** available says whether there is memory for a node. */
    method Insert(key: nat, available: bool) returns (status: Status)
      requires Valid() && Increasing(Contents())
      modifies this, Nodes(shape)
      ensures Valid() && Increasing(Contents())
      ensures status == if key in old(Contents()) then NodeExists else if available then Ok else OutOfMemory
      ensures status != Ok ==> shape == old(shape)
      ensures status == Ok ==> |Contents()| == |old(Contents())| + 1
      ensures status == Ok ==> forall k :: k in Contents() <==> k == key || k in old(Contents())
    {
      var current, parent: Node? := root, null;
      ghost var t, path := shape, Root;
      while current != null
        invariant Valid() && shape == old(shape) && Increasing(Contents())
        invariant current == Top(t) && parent == Holder(path) && shape == Plug(t, path) && Fits(key, path)
        invariant parent != null ==> (parent.key > key <==> path.Left?) && parent.key != key
        decreases t
      {
        assert t == Fork(t.left, t.node, t.right);
        Here(shape, t.left, t.node, t.right, path);
        FitsBelow(key, t.left, t.node, t.right, path);
        parent := current;
        if key == current.key {
          FitsExactly(key, t, path);
          return NodeExists;
        } else if key < current.key {
          current := current.left;
          t, path := t.left, Left(t.node, t.right, path);
        } else {
          current := current.right;
          t, path := t.right, Right(t.left, t.node, path);
        }
      }
      FitsExactly(key, t, path);
      if !available {
        return OutOfMemory;
      }
      Attach(key, parent, path);
      return Ok;
    }

    method Attach(key: nat, parent: Node?, ghost path: Path)
      requires Valid() && shape == Plug(Leaf, path) && parent == Holder(path)
      requires parent != null ==> (parent.key > key <==> path.Left?) && parent.key != key
      requires Increasing(Contents()) && Fits(key, path)
      modifies this, Nodes(shape)
      ensures Valid() && Increasing(Contents()) && |Contents()| == |old(Contents())| + 1
      ensures forall k :: k in Contents() <==> k == key || k in old(Contents())
    {
      TakenApart(Leaf, path);
      ghost var before := shape;
      var x := NewAt(key, parent, path);
      if parent == null {
        root := x;
      }
      shape := Plug(Fork(Leaf, x, Leaf), path);
      TakenApart(Fork(Leaf, x, Leaf), path);
      Grown(key, path, x);
      RootStays(Fork(Leaf, x, Leaf), Leaf, path);
    }

    /** A node with at most one child leaves the tree. */
    method Unlink(y: Node, ghost l: Shape, ghost r: Shape, ghost path: Path)
      requires Valid() && shape == Plug(Fork(l, y, r), path) && (l.Leaf? || r.Leaf?)
      modifies this, Nodes(shape) - {y}
      ensures Valid() && shape == Plug(if l.Fork? then l else r, path)
    {
      TakenApart(Fork(l, y, r), path);
      Here(shape, l, y, r, path);
      TopIn(l);
      TopIn(r);
      var x := if y.left != null then y.left else y.right;
      Splice(y, x, l, r, path);
      if y.p == null {
        root := x;
      }
      ghost var t := if l.Fork? then l else r;
      TakenApart(t, path);
      RootStays(t, Fork(l, y, r), path);
      shape := Plug(t, path);
    }

    /** A node outside the tree takes the place of one inside. */
    method Substitute(z: Node, y: Node, ghost l: Shape, ghost r: Shape, ghost path: Path)
      requires Valid() && shape == Plug(Fork(l, z, r), path) && y !in Nodes(shape)
      modifies this, Nodes(shape), y
      ensures Valid() && shape == Plug(Fork(l, y, r), path)
    {
      TakenApart(Fork(l, z, r), path);
      TopIn(l);
      TopIn(r);
      Replace(z, y, l, r, path);
      if z.p == null {
        root := y;
      }
      TakenApart(Fork(l, y, r), path);
      RootStays(Fork(l, y, r), Fork(l, z, r), path);
      shape := Plug(Fork(l, y, r), path);
    }

    /** The leftmost node to the right of z. */
    method Successor(z: Node, ghost l: Shape, ghost r: Shape, ghost path: Path)
      returns (y: Node, ghost yr: Shape, ghost yp: Path)
      requires Valid() && shape == Plug(Fork(l, z, r), path) && r.Fork?
      ensures Valid() && r == Plug(Fork(Leaf, y, yr), yp) && Leftmost(yp)
    {
      Existing(shape);
      Here(shape, l, z, r, path);
      y := z.right;
      ghost var yl := r.left;
      yr, yp := r.right, Root;
      ghost var above := Right(l, z, path);
      Here(shape, yl, y, yr, Join(yp, above));
      while y.left != null
        invariant Valid() && y.left == Top(yl) && Leftmost(yp)
        invariant r == Plug(Fork(yl, y, yr), yp) && shape == Plug(Fork(yl, y, yr), Join(yp, above))
        decreases yl
      {
        assert yl == Fork(yl.left, yl.node, yl.right);
        yp := Left(y, yr, yp);
        y := y.left;
        yl, yr := yl.left, yl.right;
        Here(shape, yl, y, yr, Join(yp, above));
      }
    }

    /** Exactly the node with the key goes. */
    method Delete(key: nat) returns (status: Status)
      requires Valid() && Increasing(Contents())
      modifies this, Nodes(shape)
      ensures Valid() && Increasing(Contents())
      ensures status == if key in old(Contents()) then Ok else NodeNotFound
      ensures status == NodeNotFound ==> shape == old(shape)
      ensures status == Ok ==> |Contents()| + 1 == |old(Contents())|
      ensures forall k :: k in Contents() <==> k in old(Contents()) && k != key
    {
      Existing(shape);
      ghost var l, r, path;
      var z: Node?;
      z, l, r, path := Find(key);
      if z == null {
        return NodeNotFound;
      }
      Here(shape, l, z, r, path);
      if z.left == null || z.right == null {
        OneChildLess(l, z, r, path);
        Unlink(z, l, r, path);
      } else {
        ghost var yr, yp;
        var y: Node;
        y, yr, yp := Successor(z, l, r, path);
        SuccessorPlace(l, z, r, path, y, yr, yp);
        SuccessorOut(l, z, r, path, y, yr, yp);
        SuccessorKeys(l, z, r, path, y, yr, yp);
        Unlink(y, Leaf, yr, Join(yp, Right(l, z, path)));
        Substitute(z, y, l, Plug(yr, yp), path);
      }
      return Ok;
    }
  }

  /** Rotating the root, here of a tree of two keys, leaves root below the top. */
  method RotatedRootIsLost() returns (t: Tree)
    ensures fresh(t) && !t.Valid()
  {
    t := new Tree();
    var two := new Node(2, null);
    var one := new Node(1, two);
    two.left := one;
    ghost var below := Fork(Leaf, one, Leaf);
    t.root, t.shape := two, Fork(below, two, Leaf);
    assert Nodes(below) == {one};
    assert Nodes(t.shape) == Nodes(below) + {two} + Nodes(Leaf);
    assert Keys(below) == [1] && t.Contents() == [1, 2];
    assert Linked(below, two) && Apart(below);
    var status := t.RightRotateNode(2);
  }

  lemma PaidFor(paid: nat, first: nat, next: nat, last: nat, steps: nat, count: nat, each: nat)
    requires paid + next <= first + count * each && steps + last <= next + each
    ensures paid + steps + last <= first + (count + 1) * each
  {
  }

  /** Any sequence of accesses takes at most three logarithms and one for each, and another logarithm for every node:
      pairs of steps, counted over all the ways down to the nodes that are splayed. */
  method Accesses(tree: Tree, keys: seq<nat>) returns (ghost steps: nat)
    requires tree.Valid() && TreeShape.Increasing(tree.Contents()) && forall k <- keys :: k in tree.Contents()
    modifies tree, Nodes(tree.shape)
    ensures tree.Valid() && tree.Contents() == old(tree.Contents())
    ensures var n := old(Size(tree.shape)); steps <= n * Log(n) + |keys| * (3 * Log(n) + 1)
  {
    ghost var contents, nodes, first, n := tree.Contents(), Nodes(tree.shape), tree.shape, Size(tree.shape);
    ghost var each := 3 * Log(n) + 1;
    steps := 0;
    PotentialBound(first, n);
    for i := 0 to |keys|
      invariant tree.Valid() && tree.Contents() == contents && Nodes(tree.shape) == nodes && Size(tree.shape) == n
      invariant steps + Potential(tree.shape) <= Potential(first) + i * each
    {
      ghost var before, paid := tree.shape, steps;
      assert keys[i] in keys;
      tree.SplayNode(keys[i]);
      steps := steps + (DepthIn(before, tree.root) + 1) / 2;
      PaidFor(paid, Potential(first), Potential(before), Potential(tree.shape), steps - paid, i, each);
    }
  }
}
