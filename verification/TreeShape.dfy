/** Binary trees of nodes on the heap: their shapes, the paths into them, and the pointers that realise them. */
module TreeShape {
  class Node {
    const key: nat
    var left: Node?
    var right: Node?
    var p: Node?

    constructor (key: nat, parent: Node?)
      ensures this.key == key && p == parent && left == null && right == null
    {
      this.key := key;
      p := parent;
      left := null;
      right := null;
    }
  }

  datatype Shape = Leaf | Fork(left: Shape, node: Node, right: Shape)

  /** The way from a subtree up to the root: at each node, which child was left and what hangs on the other side. */
  datatype Path = Root | Left(node: Node, right: Shape, up: Path) | Right(left: Shape, node: Node, up: Path)

  ghost function Top(t: Shape): Node? {
    if t.Leaf? then null else t.node
  }

  ghost function Holder(path: Path): Node? {
    if path.Root? then null else path.node
  }

  ghost function Nodes(t: Shape): set<Node> {
    if t.Leaf? then {} else Nodes(t.left) + {t.node} + Nodes(t.right)
  }

  ghost function PathNodes(path: Path): set<Node> {
    match path
    case Root => {}
    case Left(n, r, up) => {n} + Nodes(r) + PathNodes(up)
    case Right(l, n, up) => Nodes(l) + {n} + PathNodes(up)
  }

  /** The keys in order. */
  ghost function Keys(t: Shape): seq<nat> {
    if t.Leaf? then [] else Keys(t.left) + [t.node.key] + Keys(t.right)
  }

  ghost function Before(path: Path): seq<nat> {
    match path
    case Root => []
    case Left(_, _, up) => Before(up)
    case Right(l, n, up) => Before(up) + Keys(l) + [n.key]
  }

  ghost function After(path: Path): seq<nat> {
    match path
    case Root => []
    case Left(n, r, up) => [n.key] + Keys(r) + After(up)
    case Right(_, _, up) => After(up)
  }

  /** The subtree put back where the path leads. */
  ghost function Plug(t: Shape, path: Path): Shape
    decreases path
  {
    match path
    case Root => t
    case Left(n, r, up) => Plug(Fork(t, n, r), up)
    case Right(l, n, up) => Plug(Fork(l, n, t), up)
  }

  ghost function Depth(path: Path): nat {
    if path.Root? then 0 else 1 + Depth(path.up)
  }

  ghost function Join(path: Path, above: Path): Path {
    match path
    case Root => above
    case Left(n, r, up) => Left(n, r, Join(up, above))
    case Right(l, n, up) => Right(l, n, Join(up, above))
  }

  // No node occurs twice.

  ghost predicate Apart(t: Shape) {
    t.Fork? ==>
      && Apart(t.left) && Apart(t.right)
      && t.node !in Nodes(t.left) + Nodes(t.right) && Nodes(t.left) !! Nodes(t.right)
  }

  ghost predicate PathApart(path: Path) {
    match path
    case Root => true
    case Left(n, r, up) => Apart(r) && PathApart(up) && n !in Nodes(r) + PathNodes(up) && Nodes(r) !! PathNodes(up)
    case Right(l, n, up) => Apart(l) && PathApart(up) && n !in Nodes(l) + PathNodes(up) && Nodes(l) !! PathNodes(up)
  }

  // The pointers agree with the shape.

  ghost predicate Linked(t: Shape, parent: Node?)
    reads Nodes(t)
  {
    t.Fork? ==>
      && t.node.p == parent && t.node.left == Top(t.left) && t.node.right == Top(t.right)
      && Linked(t.left, t.node) && Linked(t.right, t.node)
  }

  /** The same for a path at whose end child hangs. */
  ghost predicate Hung(path: Path, child: Node?)
    reads PathNodes(path)
  {
    match path
    case Root => true
    case Left(n, r, up) =>
      n.left == child && n.right == Top(r) && n.p == Holder(up) && Linked(r, n) && Hung(up, n)
    case Right(l, n, up) =>
      n.right == child && n.left == Top(l) && n.p == Holder(up) && Linked(l, n) && Hung(up, n)
  }

  // Taking a tree apart along a path.

  lemma {:induction false} PlugNodes(t: Shape, path: Path)
    ensures Nodes(Plug(t, path)) == Nodes(t) + PathNodes(path)
    decreases path
  {
    match path
    case Root =>
    case Left(n, r, up) => PlugNodes(Fork(t, n, r), up);
    case Right(l, n, up) => PlugNodes(Fork(l, n, t), up);
  }

  lemma Regroup(a: seq<nat>, b: seq<nat>, c: seq<nat>, d: seq<nat>, e: seq<nat>)
    ensures a + (b + c + d) + e == a + b + (c + d + e) == (a + b + c) + d + e == (a + b) + c + (d + e)
  {
  }

  lemma {:induction false} PlugKeys(t: Shape, path: Path)
    ensures Keys(Plug(t, path)) == Before(path) + Keys(t) + After(path)
    decreases path
  {
    match path
    case Root =>
    case Left(n, r, up) =>
      PlugKeys(Fork(t, n, r), up);
      Regroup(Before(up), Keys(t), [n.key], Keys(r), After(up));
    case Right(l, n, up) =>
      PlugKeys(Fork(l, n, t), up);
      Regroup(Before(up), Keys(l), [n.key], Keys(t), After(up));
  }

  lemma {:induction false} PlugApart(t: Shape, path: Path)
    ensures Apart(Plug(t, path)) <==> Apart(t) && PathApart(path) && Nodes(t) !! PathNodes(path)
    decreases path
  {
    match path
    case Root =>
    case Left(n, r, up) => PlugApart(Fork(t, n, r), up);
    case Right(l, n, up) => PlugApart(Fork(l, n, t), up);
  }

  lemma {:induction false} PlugLinked(t: Shape, path: Path)
    ensures Linked(Plug(t, path), null) <==> Linked(t, Holder(path)) && Hung(path, Top(t))
    decreases path
  {
    match path
    case Root =>
    case Left(n, r, up) => PlugLinked(Fork(t, n, r), up);
    case Right(l, n, up) => PlugLinked(Fork(l, n, t), up);
  }

  lemma {:induction false} PlugJoin(t: Shape, path: Path, above: Path)
    ensures Plug(t, Join(path, above)) == Plug(Plug(t, path), above)
    decreases path
  {
    match path
    case Root =>
    case Left(n, r, up) => PlugJoin(Fork(t, n, r), up, above);
    case Right(l, n, up) => PlugJoin(Fork(l, n, t), up, above);
  }

  /** A node of a tree is at the end of a path. */
  lemma {:induction false} Located(t: Shape, x: Node) returns (l: Shape, r: Shape, path: Path)
    requires x in Nodes(t)
    ensures Plug(Fork(l, x, r), path) == t
    decreases t
  {
    if x == t.node {
      l, r, path := t.left, t.right, Root;
    } else if x in Nodes(t.left) {
      l, r, path := Located(t.left, x);
      PlugJoin(Fork(l, x, r), path, Left(t.node, t.right, Root));
      path := Join(path, Left(t.node, t.right, Root));
    } else {
      l, r, path := Located(t.right, x);
      PlugJoin(Fork(l, x, r), path, Right(t.left, t.node, Root));
      path := Join(path, Right(t.left, t.node, Root));
    }
  }

  /** Every node of a shape exists. */
  lemma {:induction false} Existing(t: Shape)
    ensures forall n <- Nodes(t) :: allocated(n)
  {
    if t.Fork? {
      Existing(t.left);
      Existing(t.right);
    }
  }

  lemma {:induction false} PathExisting(path: Path)
    ensures forall n <- PathNodes(path) :: allocated(n)
  {
    match path
    case Root =>
    case Left(n, r, up) =>
      Existing(r);
      PathExisting(up);
    case Right(l, n, up) =>
      Existing(l);
      PathExisting(up);
  }

  // Order.

  ghost predicate Increasing(s: seq<nat>) {
    forall i, j :: 0 <= i < j < |s| ==> s[i] < s[j]
  }

  /** Everything to the left of the path's end is below the key, everything to the right above it. */
  ghost predicate Fits(key: nat, path: Path) {
    (forall k <- Before(path) :: k < key) && (forall k <- After(path) :: key < k)
  }

  lemma IncreasingAround(a: seq<nat>, k: nat, b: seq<nat>)
    requires Increasing(a + [k] + b)
    ensures (forall x <- a :: x < k) && (forall x <- b :: k < x)
  {
    var s := a + [k] + b;
    assert s[|a|] == k;
    forall x | x in a
      ensures x < k
    {
      var i :| 0 <= i < |a| && a[i] == x;
      assert s[i] == x;
    }
    forall x | x in b
      ensures k < x
    {
      var i :| 0 <= i < |b| && b[i] == x;
      assert s[|a| + 1 + i] == x;
    }
  }

  /** Where a node sits in the order of the whole tree. */
  lemma KeysAround(l: Shape, n: Node, r: Shape, path: Path)
    ensures Keys(Plug(Fork(l, n, r), path)) == (Before(path) + Keys(l)) + [n.key] + (Keys(r) + After(path))
  {
    PlugKeys(Fork(l, n, r), path);
    Regroup(Before(path), Keys(l), [n.key], Keys(r), After(path));
  }

  /** A search that turns the right way at a node still fits. */
  lemma FitsBelow(key: nat, l: Shape, n: Node, r: Shape, path: Path)
    requires Increasing(Keys(Plug(Fork(l, n, r), path))) && Fits(key, path)
    ensures key < n.key ==> Fits(key, Left(n, r, path))
    ensures n.key < key ==> Fits(key, Right(l, n, path))
  {
    KeysAround(l, n, r, path);
    IncreasingAround(Before(path) + Keys(l), n.key, Keys(r) + After(path));
    assert forall k <- Keys(r) + After(path) :: n.key < k;
    assert forall k <- Before(path) + Keys(l) :: k < n.key;
    assert After(Left(n, r, path)) == [n.key] + (Keys(r) + After(path));
    assert Before(Right(l, n, path)) == (Before(path) + Keys(l)) + [n.key];
  }

  /** Only below the path's end can the key be. */
  lemma FitsExactly(key: nat, t: Shape, path: Path)
    requires Fits(key, path)
    ensures key in Keys(Plug(t, path)) <==> key in Keys(t)
  {
    PlugKeys(t, path);
  }

  /** A key that fits at the end of a path may be put there. */
  lemma Grown(key: nat, path: Path, x: Node)
    requires Increasing(Keys(Plug(Leaf, path))) && Fits(key, path) && x.key == key
    ensures var before, after := Keys(Plug(Leaf, path)), Keys(Plug(Fork(Leaf, x, Leaf), path));
      Increasing(after) && |after| == |before| + 1 && forall k :: k in after <==> k == key || k in before
  {
    assert Keys(Fork(Leaf, x, Leaf)) == [key];
    PlugKeys(Leaf, path);
    PlugKeys(Fork(Leaf, x, Leaf), path);
    assert Before(path) + [] + After(path) == Before(path) + After(path);
    IncreasingWith(Before(path), key, After(path));
  }

  lemma IncreasingWith(a: seq<nat>, k: nat, b: seq<nat>)
    requires Increasing(a + b) && (forall x <- a :: x < k) && (forall x <- b :: k < x)
    ensures Increasing(a + [k] + b)
  {
    var s, t := a + [k] + b, a + b;
    forall i, j | 0 <= i < j < |s|
      ensures s[i] < s[j]
    {
      assert i < |a| ==> s[i] == t[i] == a[i];
      assert i > |a| ==> s[i] == t[i - 1];
      assert j < |a| ==> s[j] == t[j];
      assert j > |a| ==> s[j] == t[j - 1] == b[j - 1 - |a|];
      if i < |a| == j {
        assert a[i] in a;
      } else if i == |a| {
        assert b[j - 1 - |a|] in b;
      }
    }
  }

  lemma IncreasingWithout(a: seq<nat>, k: nat, b: seq<nat>)
    requires Increasing(a + [k] + b)
    ensures Increasing(a + b) && k !in a + b
  {
    IncreasingAround(a, k, b);
    var s, t := a + [k] + b, a + b;
    forall i, j | 0 <= i < j < |t|
      ensures t[i] < t[j]
    {
      assert t[i] == s[if i < |a| then i else i + 1];
      assert t[j] == s[if j < |a| then j else j + 1];
    }
  }

  // The successor.

  ghost predicate Leftmost(path: Path) {
    path.Root? || (path.Left? && Leftmost(path.up))
  }

  lemma {:induction false} NothingBefore(path: Path)
    requires Leftmost(path)
    ensures Before(path) == []
  {
    if path.Left? {
      NothingBefore(path.up);
    }
  }
}
