/** The intrusive red-black tree: nodes with parent links and one shared black
    sentinel, changed in place by rotations and fixup loops.

    The invariant is local. Every node carries four ghost fields: `idx`, its place in the
    in-order sequence `order`; `lo` and `hi`, the slice of `order` that its subtree
    covers; and `bh`, the number of black nodes on any path from it down to the sentinel.
    A rotation then touches the ghost state of two nodes only. */
module RbTree {

  newtype Key = k: int | 0 <= k < 0x1_0000_0000_0000_0000

  /** The two branch tests: `node->key < temp->key`, and the signed difference
      that insert_timer_value takes so that deadlines may overflow. */
  predicate Less(timer: bool, a: Key, b: Key) {
    if timer then Signed(Minus(a, b)) < 0 else a < b
  }

  /** Unsigned 64-bit subtraction, which wraps. */
  function Minus(a: Key, b: Key): Key {
    ((a as int - b as int) % 0x1_0000_0000_0000_0000) as Key
  }

  /** The value of the same 64 bits read as a signed integer. */
  function Signed(a: Key): int {
    if a < 0x8000_0000_0000_0000 then a as int else a as int - 0x1_0000_0000_0000_0000
  }

  /** What a tree is ordered by: the key itself, or for timers the distance from `base`. */
  function Rank(timer: bool, base: Key, a: Key): Key {
    if timer then Minus(a, base) else a
  }

  /** Timer keys must lie in one window of half the key range that starts at `base`. */
  predicate Fits(timer: bool, base: Key, a: Key) {
    timer ==> Minus(a, base) < 0x8000_0000_0000_0000
  }

  /** Inside a window the wrapped comparison is the order of distances from its start. */
  lemma LessIsRankOrder(timer: bool, base: Key, a: Key, b: Key)
    requires Fits(timer, base, a) && Fits(timer, base, b)
    ensures Less(timer, a, b) <==> Rank(timer, base, a) < Rank(timer, base, b)
  {
    if timer {
      var x, y := Minus(a, base) as int, Minus(b, base) as int;
      assert (x - y) % 0x1_0000_0000_0000_0000 == Minus(a, b) as int;
    }
  }

  /** Deadlines exactly half the range apart are each before the other. */
  lemma HalfRangeBoth(a: Key, b: Key)
    requires Minus(a, b) == 0x8000_0000_0000_0000
    ensures Less(true, a, b) && Less(true, b, a)
  {
    assert (b as int - a as int) % 0x1_0000_0000_0000_0000 == 0x8000_0000_0000_0000;
  }

  /** The comparison puts any two of these keys in exactly one order, and the orders agree. */
  predicate Ordered(timer: bool, keys: set<Key>) {
    && (forall a | a in keys :: !Less(timer, a, a))
    && (forall a, b | a in keys && b in keys && a != b :: Less(timer, a, b) != Less(timer, b, a))
    && (forall a, b, c | a in keys && b in keys && c in keys && Less(timer, a, b) && Less(timer, b, c) ::
          Less(timer, a, c))
  }

  ghost predicate AllFit(timer: bool, base: Key, keys: set<Key>) {
    forall a | a in keys :: Fits(timer, base, a)
  }

  lemma {:induction false} Least(timer: bool, keys: set<Key>) returns (m: Key)
    requires Ordered(timer, keys) && keys != {}
    ensures m in keys && forall a | a in keys && a != m :: Less(timer, m, a)
    decreases |keys|
  {
    m :| m in keys;
    var rest := keys - {m};
    if rest != {} {
      var l := Least(timer, rest);
      if Less(timer, l, m) {
        m := l;
      }
    }
  }

  /** The timer comparison is a strict total order on exactly the sets of keys that fit into some window. */
  lemma OrderedIffWindow(timer: bool, keys: set<Key>)
    ensures Ordered(timer, keys) <==> exists base :: AllFit(timer, base, keys)
  {
    if Ordered(timer, keys) {
      var base := 0;
      if keys != {} {
        base := Least(timer, keys);
      }
      assert AllFit(timer, base, keys);
    }
    if base :| AllFit(timer, base, keys) {
      WindowOrdered(timer, base, keys);
    }
  }

  lemma WindowOrdered(timer: bool, base: Key, keys: set<Key>)
    requires AllFit(timer, base, keys)
    ensures Ordered(timer, keys)
  {
    hide Less, Rank;
    forall a, b | a in keys && b in keys
      ensures Less(timer, a, b) <==> Rank(timer, base, a) < Rank(timer, base, b)
      ensures a != b ==> Rank(timer, base, a) != Rank(timer, base, b)
    {
      LessIsRankOrder(timer, base, a, b);
      RankInjective(timer, base, a, b);
    }
  }

  lemma RankInjective(timer: bool, base: Key, a: Key, b: Key)
    ensures a != b ==> Rank(timer, base, a) != Rank(timer, base, b)
  {
  }

  class Node {
    var key: Key
    var left: Node?
    var right: Node?
    var parent: Node?
    var red: bool
    ghost var idx: nat
    ghost var lo: nat
    ghost var hi: nat
    ghost var bh: nat

    constructor (key: Key)
      ensures this.key == key
    {
      this.key := key;
      left, right, parent, red := null, null, null, false;
    }

    /** The child on one side. */
    ghost function Kid(l: bool): Node?
      reads this
    {
      if l then left else right
    }
  }

  class Tree {
    var root: Node
    const sentinel: Node
    const timer: bool
    ghost var order: seq<Node>

    /** `n` is a node of the tree. */
    ghost predicate In(n: Node?)
      reads `order, order`idx
    {
      n in order && n.idx < |order| && order[n.idx] == n
    }

    ghost predicate LinksAt(i: nat)
      requires i < |order|
      reads `root, `order, order`left, order`right, order`parent, order`idx, order`lo, order`hi
    {
      var n := order[i];
      && n.idx == i && n != sentinel
      && n.lo <= i < n.hi <= |order|
      && (if n.left == sentinel then n.lo == i
          else In(n.left) && n.left.parent == n && n.left.lo == n.lo && n.left.hi == i)
      && (if n.right == sentinel then n.hi == i + 1
          else In(n.right) && n.right.parent == n && n.right.lo == i + 1 && n.right.hi == n.hi)
      && (if n == root then n.lo == 0 && n.hi == |order|
          else In(n.parent) && (n.parent.left == n || n.parent.right == n))
    }

    /** Every link is consistent with the in-order sequence. Nothing is said of the parent
        of the root, which a deletion may leave stale. */
    ghost predicate Links()
      reads `root, `order, order`left, order`right, order`parent, order`idx, order`lo, order`hi
    {
      && (if |order| == 0 then root == sentinel else In(root))
      && sentinel !in order
      && forall i :: 0 <= i < |order| ==> LinksAt(i)
    }

    /** The black heights below order[i] agree and give its own. */
    ghost predicate HeightAt(i: nat)
      requires i < |order| && LinksAt(i)
      reads this, order, sentinel
    {
      var n := order[i];
      n.left.bh == n.right.bh && n.bh == n.left.bh + (if n.red then 0 else 1)
    }

    /** A red child of a red order[i] can only be `x`. */
    ghost predicate ColorAt(i: nat, x: Node?)
      requires i < |order| && LinksAt(i)
      reads this, order, sentinel
    {
      var n := order[i];
      n.red ==> (n.left.red ==> n.left == x) && (n.right.red ==> n.right == x)
    }

    ghost predicate Valid()
      reads this, order, sentinel
    {
      && Links()
      && !sentinel.red && sentinel.bh == 0 && !root.red
      && forall i :: 0 <= i < |order| ==> LinksAt(i) && HeightAt(i) && ColorAt(i, null)
    }

    constructor (sentinel: Node, timer: bool)
      modifies sentinel
      ensures Valid() && order == [] && this.sentinel == sentinel && this.timer == timer
    {
      root, this.sentinel, this.timer, order := sentinel, sentinel, timer, [];
      new;
      sentinel.red, sentinel.bh := false, 0;
    }

    /** What a rotation at `node` that brings up its child `temp` does to links and slices.
        `l` is true for a left rotation. */
    twostate predicate Rotated(l: bool, node: Node, temp: Node)
      reads this, order
    {
      && node in order && temp in order && node != temp
      && order == old(order)
      && root == (if old(root) == node then temp else old(root))
      && node.Kid(l) == old(node.Kid(l)) && node.Kid(!l) == old(temp.Kid(l)) && node.parent == temp
      && temp.Kid(l) == node && temp.Kid(!l) == old(temp.Kid(!l)) && temp.parent == old(node.parent)
      && node.lo == (if l then old(node.lo) else temp.idx + 1)
      && node.hi == (if l then temp.idx else old(node.hi))
      && temp.lo == old(node.lo) && temp.hi == old(node.hi)
      && (forall m :: m in order ==> m.idx == old(m.idx))
      && (forall m :: m in order && m != node && m != temp ==>
            && m.left == (if old(node != root && m == node.parent && m.left == node) then temp else old(m.left))
            && m.right == (if old(node != root && m == node.parent && m.left != node) then temp else old(m.right))
            && m.parent == (if m == old(temp.Kid(l)) && m != sentinel then node else old(m.parent))
            && m.lo == old(m.lo) && m.hi == old(m.hi))
    }

    twostate lemma RotatedLinksOfNode(node: Node, new l: bool, new temp: Node)
      requires old(Links()) && old(In(node)) && old(node.Kid(!l)) == temp && temp != sentinel
      requires Rotated(l, node, temp)
      ensures node.idx < |order| && LinksAt(node.idx)
    {
      assert old(LinksAt(node.idx));
      assert old(LinksAt(temp.idx));
    }

    twostate lemma RotatedLinksOfTemp(node: Node, new l: bool, new temp: Node)
      requires old(Links()) && old(In(node)) && old(node.Kid(!l)) == temp && temp != sentinel
      requires Rotated(l, node, temp)
      ensures temp.idx < |order| && LinksAt(temp.idx)
    {
      assert old(LinksAt(node.idx));
      assert old(LinksAt(temp.idx));
    }

    twostate lemma RotatedLinksOfOther(node: Node, new l: bool, new temp: Node, new i: nat)
      requires old(Links()) && old(In(node)) && old(node.Kid(!l)) == temp && temp != sentinel
      requires Rotated(l, node, temp)
      requires i < |order| && i != node.idx && i != temp.idx
      ensures LinksAt(i)
    {
      assert old(LinksAt(node.idx));
      assert old(LinksAt(temp.idx));
      assert old(LinksAt(i));
    }

    twostate lemma RotatedLinks(node: Node, new l: bool, new temp: Node)
      requires old(Links()) && old(In(node)) && old(node.Kid(!l)) == temp && temp != sentinel
      requires Rotated(l, node, temp)
      ensures Links()
    {
      assert old(LinksAt(node.idx));
      assert old(LinksAt(temp.idx));
      RotatedLinksOfNode(node, l, temp);
      RotatedLinksOfTemp(node, l, temp);
      forall i | 0 <= i < |order| && i != node.idx && i != temp.idx
        ensures LinksAt(i)
      {
        RotatedLinksOfOther(node, l, temp, i);
      }
    }

    /** The links around `node` and its child `temp` before a rotation. */
    ghost predicate Turnable(l: bool, node: Node, temp: Node?)
      reads this, order
    {
      && node in order && temp in order && node != temp
      && node.Kid(!l) == temp && node.Kid(l) != temp
      && (temp.Kid(l) == sentinel || temp.Kid(l) in order)
      && temp.Kid(l) != node && temp.Kid(l) != temp && temp.Kid(!l) != node
      && (node == root || (node.parent in order && node.parent != node && node.parent != temp
                           && ((node.parent.left == node) != (node.parent.right == node))))
    }

    lemma LinksTurnable(l: bool, node: Node)
      requires Links() && In(node) && node.Kid(!l) != sentinel
      ensures Turnable(l, node, node.Kid(!l))
    {
      assert LinksAt(node.idx);
      var temp := node.Kid(!l);
      assert LinksAt(temp.idx);
      if node != root {
        assert LinksAt(node.parent.idx);
      }
    }

    method LeftTurn(node: Node)
      requires Turnable(true, node, node.right)
      modifies `root, order`left, order`right, order`parent, order`lo, order`hi
      ensures old(node.right) != null && Rotated(true, node, old(node.right))
    {
      var temp := node.right;
      node.right := temp.left;
      if temp.left != sentinel {
        temp.left.parent := node;
      }
      temp.parent := node.parent;
      if node == root {
        root := temp;
      } else if node == node.parent.left {
        node.parent.left := temp;
      } else {
        node.parent.right := temp;
      }
      temp.left := node;
      node.parent := temp;
      temp.lo, temp.hi := node.lo, node.hi;
      node.hi := temp.idx;
    }

    method LeftRotate(node: Node)
      requires Links() && In(node) && node.right != sentinel
      modifies `root, order`left, order`right, order`parent, order`lo, order`hi
      ensures Links() && old(node.right) != null && Rotated(true, node, old(node.right))
    {
      LinksTurnable(true, node);
      ghost var temp := node.right;
      LeftTurn(node);
      RotatedLinks(node, true, temp);
    }

    method RightTurn(node: Node)
      requires Turnable(false, node, node.left)
      modifies `root, order`left, order`right, order`parent, order`lo, order`hi
      ensures old(node.left) != null && Rotated(false, node, old(node.left))
    {
      var temp := node.left;
      node.left := temp.right;
      if temp.right != sentinel {
        temp.right.parent := node;
      }
      temp.parent := node.parent;
      if node == root {
        root := temp;
      } else if node == node.parent.right {
        node.parent.right := temp;
      } else {
        node.parent.left := temp;
      }
      temp.right := node;
      node.parent := temp;
      temp.lo, temp.hi := node.lo, node.hi;
      node.lo := temp.idx + 1;
    }

    method RightRotate(node: Node)
      requires Links() && In(node) && node.left != sentinel
      modifies `root, order`left, order`right, order`parent, order`lo, order`hi
      ensures Links() && old(node.left) != null && Rotated(false, node, old(node.left))
    {
      LinksTurnable(false, node);
      ghost var temp := node.left;
      RightTurn(node);
      RotatedLinks(node, false, temp);
    }

    /** Only `node`, `temp` and `o` have been repainted. */
    twostate predicate Repainted(node: Node, temp: Node, o: Node)
      reads this, order, sentinel
    {
      && order == old(order)
      && sentinel.red == old(sentinel.red) && sentinel.bh == old(sentinel.bh)
      && forall m :: m in order && m != node && m != temp && m != o ==> m.red == old(m.red) && m.bh == old(m.bh)
    }

    /** Away from the rotation heights and colours stay right when `temp` takes over
        the black height of `node` and is red only if `node` was. */
    twostate lemma RotatedPaintAt(node: Node, new l: bool, new temp: Node, new o: Node, new i: nat)
      requires old(Links()) && old(In(node)) && old(node.Kid(!l)) == temp && temp != sentinel
      requires o in old(order) && (o == temp || old(o.parent) == temp)
      requires Rotated(l, node, temp) && Links() && Repainted(node, temp, o)
      requires temp.bh == old(node.bh) && (temp.red ==> old(node.red))
      requires i < |order| && i != node.idx && i != temp.idx && i != o.idx
      requires old(LinksAt(i) && HeightAt(i) && ColorAt(i, null))
      ensures LinksAt(i) && HeightAt(i) && ColorAt(i, null)
    {
      assert LinksAt(i);
      assert old(LinksAt(node.idx));
      assert old(LinksAt(temp.idx));
    }

    /** The state inside the insertion fixup: `n` is red and may have a red parent. */
    ghost predicate Growing(n: Node)
      reads this, order, sentinel
    {
      && Links() && In(n) && LinksAt(n.idx) && n.red && (root.red ==> root == n)
      && !sentinel.red && sentinel.bh == 0
      && forall i :: 0 <= i < |order| ==> LinksAt(i) && HeightAt(i) && ColorAt(i, n)
    }

    /** The parent `p` and the uncle `u` have turned black and the grandparent `g` red. */
    twostate predicate Recolored(p: Node, u: Node, g: Node)
      reads this, order, sentinel
    {
      && p in order && u in order && g in order && order == old(order)
      && p != u && p != g && u != g
      && old(p.red && u.red && !g.red) && !p.red && !u.red && g.red
      && p.bh == old(p.bh) + 1 && u.bh == old(u.bh) + 1 && g.bh == old(g.bh)
      && sentinel.red == old(sentinel.red) && sentinel.bh == old(sentinel.bh)
      && forall m :: m in order && m != g && m != p && m != u ==> m.red == old(m.red) && m.bh == old(m.bh)
    }

    twostate lemma RecoloredAt(g: Node, new p: Node, new u: Node, new n: Node, new i: nat)
      requires p in old(order) && u in old(order) && n in old(order)
      requires i < |order| && Recolored(p, u, g) && !sentinel.red
      requires old(LinksAt(i) && HeightAt(i) && ColorAt(i, n)) && LinksAt(i)
      requires p.parent == g && u.parent == g && n.parent == p
      requires (g.left == p && g.right == u) || (g.left == u && g.right == p)
      requires forall m :: m in order ==> m.left == old(m.left) && m.right == old(m.right)
      ensures HeightAt(i) && ColorAt(i, g)
    {
    }

    method PaintFamily(p: Node, u: Node, g: Node)
      requires p in order && u in order && g in order && p != u && p != g && u != g && sentinel !in order
      requires p.red && u.red && !g.red
      modifies order`red, order`bh
      ensures Recolored(p, u, g)
    {
      p.red := false;
      u.red := false;
      g.red := true;
      p.bh, u.bh := p.bh + 1, u.bh + 1;
    }

    /** The red uncle: push the redness up to the grandparent. */
    method RecolorUncle(p: Node, u: Node, g: Node, ghost n: Node)
      requires Growing(n) && n != root && n.parent == p && p.red && p != root && p.parent == g
      requires u != p && (u == g.left || u == g.right) && u.red
      modifies order`red, order`bh
      ensures Growing(g) && g.lo <= p.lo && p.hi <= g.hi && g.hi - g.lo > p.hi - p.lo
    {
      assert LinksAt(n.idx);
      assert LinksAt(p.idx);
      assert LinksAt(g.idx) && HeightAt(g.idx) && ColorAt(g.idx, n);
      assert LinksAt(u.idx);
      PaintFamily(p, u, g);
      assert Links();
      forall i | 0 <= i < |order|
        ensures LinksAt(i) && HeightAt(i) && ColorAt(i, g)
      {
        assert old(LinksAt(i) && HeightAt(i) && ColorAt(i, n));
        RecoloredAt(g, p, u, n, i);
      }
    }

    method Turn(l: bool, node: Node, temp: Node)
      requires Turnable(l, node, temp)
      modifies `root, order`left, order`right, order`parent, order`lo, order`hi
      ensures Rotated(l, node, temp)
    {
      if l {
        LeftTurn(node);
      } else {
        RightTurn(node);
      }
    }

    /** The two nodes of a rotation with their links, heights and colours. */
    ghost predicate Pair(node: Node, temp: Node, x: Node)
      reads this, order, sentinel
    {
      && In(node) && LinksAt(node.idx) && HeightAt(node.idx) && ColorAt(node.idx, x)
      && In(temp) && LinksAt(temp.idx) && HeightAt(temp.idx) && ColorAt(temp.idx, x)
    }

    twostate lemma InnerPair(p: Node, new l: bool, new n: Node)
      requires n in old(order) && Rotated(l, p, n) && Repainted(p, n, n) && old(Pair(p, n, n)) && !sentinel.red
      requires old(p.Kid(!l)) == n && n != sentinel && p != sentinel && sentinel !in order
      requires old(p.red && n.red) && p.red && n.red && p.bh == old(p.bh) && n.bh == old(n.bh)
      requires LinksAt(p.idx) && LinksAt(n.idx)
      ensures Pair(p, n, p)
    {
    }

    /** All other nodes are as before. */
    twostate lemma InnerRest(p: Node, new l: bool, new n: Node)
      requires n in old(order) && old(Growing(n)) && old(In(p) && n.parent == p && p.Kid(!l) == n) && n != sentinel
      requires Rotated(l, p, n) && Links() && Repainted(p, n, n) && Pair(p, n, p)
      requires old(p.red && n.red) && n.red && n.bh == old(p.bh)
      ensures forall i :: 0 <= i < |order| ==> LinksAt(i) && HeightAt(i) && ColorAt(i, p)
    {
      forall i | 0 <= i < |order|
        ensures LinksAt(i) && HeightAt(i) && ColorAt(i, p)
      {
        if i != p.idx && i != n.idx {
          InnerOther(p, l, n, i);
        }
      }
    }

    twostate lemma InnerOther(p: Node, new l: bool, new n: Node, new i: nat)
      requires n in old(order) && old(Growing(n)) && old(In(p) && n.parent == p && p.Kid(!l) == n) && n != sentinel
      requires Rotated(l, p, n) && Links() && Repainted(p, n, n)
      requires old(p.red && n.red) && n.red && n.bh == old(p.bh)
      requires i < |order| && i != p.idx && i != n.idx
      ensures LinksAt(i) && HeightAt(i) && ColorAt(i, null)
    {
      assert old(LinksAt(i) && HeightAt(i) && ColorAt(i, n));
      assert old(LinksAt(p.idx));
      RotatedPaintAt(p, l, n, n, i);
    }

    /** The inner grandchild `n` changes places with its red parent `p`. */
    method InsertInner(l: bool, n: Node, p: Node)
      requires Growing(n) && n != root && n.parent == p && p.red && p != root && p.Kid(!l) == n
      modifies `root, order`left, order`right, order`parent, order`lo, order`hi
      ensures Growing(p) && p != root && p.parent == n && n.Kid(l) == p && n.red && n != root
      ensures root == old(root) && Rotated(l, p, n)
    {
      InnerFacts(l, n, p);
      Turn(l, p, n);
      InnerEnd(p, l, n);
    }

    lemma InnerFacts(l: bool, n: Node, p: Node)
      requires Growing(n) && n != root && n.parent == p && p.red && p != root && p.Kid(!l) == n
      ensures Turnable(l, p, n) && Pair(p, n, n) && n.bh == p.bh && n != sentinel && p != sentinel
      ensures Links() && sentinel !in order
    {
      assert LinksAt(n.idx) && HeightAt(n.idx) && ColorAt(n.idx, n);
      assert LinksAt(p.idx) && HeightAt(p.idx) && ColorAt(p.idx, n);
      LinksTurnable(l, p);
    }

    twostate lemma InnerEnd(p: Node, new l: bool, new n: Node)
      requires n in old(order) && old(Growing(n)) && old(In(p) && n.parent == p && p.Kid(!l) == n) && n != sentinel
      requires old(n != root && p.red && p != root && sentinel !in order && n.bh == p.bh) && p != sentinel
      requires old(Pair(p, n, n)) && Rotated(l, p, n) && Repainted(p, n, n)
      requires p.red && n.red && p.bh == old(p.bh) && n.bh == old(n.bh)
      ensures Growing(p) && p != root && n != root && root == old(root)
    {
      RotatedLinks(p, l, n);
      assert LinksAt(p.idx);
      assert LinksAt(n.idx);
      InnerPair(p, l, n);
      InnerRest(p, l, n);
    }

    /** `p` turns black, `g` red, and `p` comes up in place of `g`. */
    method PaintAndTurn(l: bool, g: Node, p: Node)
      requires Turnable(l, g, p) && p.red && !g.red && g.bh > 0 && sentinel !in order
      modifies `root, order`left, order`right, order`parent, order`lo, order`hi, order`red, order`bh
      ensures Rotated(l, g, p) && Repainted(g, p, p)
      ensures !p.red && g.red && p.bh == old(g.bh) && g.bh == old(g.bh) - 1
    {
      p.red := false;
      g.red := true;
      p.bh, g.bh := g.bh, g.bh - 1;
      Turn(l, g, p);
    }

    twostate lemma OuterPair(g: Node, new l: bool, new p: Node, new n: Node)
      requires p in old(order) && n in old(order) && Rotated(l, g, p) && Repainted(g, p, p) && old(Pair(g, p, n))
      requires !sentinel.red && sentinel.bh == 0 && sentinel !in order && p != sentinel && g != sentinel
      requires old(g.Kid(!l)) == p && old(p.Kid(!l)) == n && old(p.red && !g.red && n.red && !g.Kid(l).red)
      requires !p.red && g.red && p.bh == old(g.bh) && g.bh == old(g.bh) - 1
      requires LinksAt(g.idx) && LinksAt(p.idx)
      ensures Pair(g, p, n)
    {
    }

    /** The black uncle: the red parent `p` comes up in place of the grandparent `g`. */
    method InsertOuter(l: bool, n: Node, p: Node, g: Node)
      requires Growing(n) && n != root && n.parent == p && p.red && p != root && p.parent == g
      requires g.Kid(l) == p && p.Kid(l) == n && g.Kid(!l) != null && !g.Kid(!l).red
      modifies `root, order`left, order`right, order`parent, order`lo, order`hi, order`red, order`bh
      ensures Growing(n) && n.parent == p && !p.red
    {
      assert LinksAt(n.idx) && HeightAt(n.idx) && ColorAt(n.idx, n);
      assert LinksAt(p.idx) && HeightAt(p.idx) && ColorAt(p.idx, n);
      assert LinksAt(g.idx) && HeightAt(g.idx) && ColorAt(g.idx, n);
      LinksTurnable(!l, g);
      PaintAndTurn(!l, g, p);
      RotatedLinks(g, !l, p);
      assert LinksAt(g.idx);
      assert LinksAt(p.idx);
      OuterPair(g, !l, p, n);
      forall i | 0 <= i < |order|
        ensures LinksAt(i) && HeightAt(i) && ColorAt(i, n)
      {
        assert old(LinksAt(i) && HeightAt(i) && ColorAt(i, n));
        if i != p.idx && i != g.idx {

          RotatedPaintAt(g, !l, p, p, i);
        }
      }
    }

    /** The empty place below `temp` on side `l`, which is position `k` in order. */
    ghost predicate Slot(temp: Node, l: bool, k: nat)
      reads this, order
    {
      && In(temp) && k == (if l then temp.idx else temp.idx + 1)
      && temp.Kid(l) == sentinel
    }

    /** Walk down from the root to the place where `node` belongs. */
    method FindSlot(node: Node) returns (temp: Node, l: bool, ghost k: nat)
      requires Links() && root != sentinel
      ensures Slot(temp, l, k) && k <= |order|
      ensures k > 0 ==> !Less(timer, node.key, order[k - 1].key)
      ensures k < |order| ==> Less(timer, node.key, order[k].key)
    {
      temp := root;
      assert LinksAt(temp.idx);
      while true
        invariant In(temp) && LinksAt(temp.idx)
        invariant temp.lo > 0 ==> !Less(timer, node.key, order[temp.lo - 1].key)
        invariant temp.hi < |order| ==> Less(timer, node.key, order[temp.hi].key)
        decreases temp.hi - temp.lo
      {
        l := Less(timer, node.key, temp.key);
        var p := if l then temp.left else temp.right;
        if p == sentinel {
          k := if l then temp.idx else temp.idx + 1;
          return;
        }
        assert LinksAt(p.idx);
        temp := p;
      }
    }

    /** What linking `node` into a slot does to places and slices. */
    twostate predicate Attached(node: Node, temp: Node, l: bool, k: nat)
      reads this, order, node
    {
      && k <= old(|order|) && temp in old(order) && node !in old(order)
      && order == old(order)[..k] + [node] + old(order)[k..] && root == old(root)
      && node.left == sentinel && node.right == sentinel && node.parent == temp
      && node.idx == k && node.lo == k && node.hi == k + 1
      && (forall m :: m in old(order) ==>
            && m in order
            && m.left == (if m == temp && l then node else old(m.left))
            && m.right == (if m == temp && !l then node else old(m.right))
            && m.parent == old(m.parent)
            && m.idx == (if old(m.idx) >= k then old(m.idx) + 1 else old(m.idx))
            && m.lo == (if old(m.lo) > k || (old(m.lo) == k && !l) then old(m.lo) + 1 else old(m.lo))
            && m.hi == (if old(m.hi) > k || (old(m.hi) == k && !l) then old(m.hi) + 1 else old(m.hi)))
    }

    /** Make room in places and slices for a node at position `k`. */
    ghost method Widen(l: bool, k: nat)
      modifies order`idx, order`lo, order`hi
      ensures forall m :: m in order ==>
        && m.idx == (if old(m.idx) >= k then old(m.idx) + 1 else old(m.idx))
        && m.lo == (if old(m.lo) > k || (old(m.lo) == k && !l) then old(m.lo) + 1 else old(m.lo))
        && m.hi == (if old(m.hi) > k || (old(m.hi) == k && !l) then old(m.hi) + 1 else old(m.hi))
    {
      forall m | m in order {
        m.lo := if m.lo > k || (m.lo == k && !l) then m.lo + 1 else m.lo;
      }
      forall m | m in order {
        m.hi := if m.hi > k || (m.hi == k && !l) then m.hi + 1 else m.hi;
      }
      forall m | m in order {
        m.idx := if m.idx >= k then m.idx + 1 else m.idx;
      }
    }

    method AttachLinks(node: Node, temp: Node, l: bool)
      requires temp in order && node !in order
      modifies order`left, order`right, node`left, node`right, node`parent, node`red
      ensures node.left == sentinel && node.right == sentinel && node.parent == temp && node.red
      ensures forall m :: m in order ==>
        && m.left == (if m == temp && l then node else old(m.left))
        && m.right == (if m == temp && !l then node else old(m.right))
    {
      if l {
        temp.left := node;
      } else {
        temp.right := node;
      }
      node.parent := temp;
      node.left := sentinel;
      node.right := sentinel;
      node.red := true;
    }

    method Attach(node: Node, temp: Node, l: bool, ghost k: nat)
      requires Slot(temp, l, k) && k <= |order| && node !in order
      modifies `order, order`left, order`right, order`idx, order`lo, order`hi, node
      ensures Attached(node, temp, l, k) && node.red && node.bh == 0 && node.key == old(node.key)
    {
      AttachLinks(node, temp, l);
      Widen(l, k);
      node.idx, node.lo, node.hi, node.bh := k, k, k + 1, 0;
      order := order[..k] + [node] + order[k..];
    }

    lemma AllIn()
      requires Links()
      ensures forall m :: m in order ==> In(m)
    {
      forall m | m in order
        ensures In(m)
      {
        var i :| 0 <= i < |order| && order[i] == m;
        assert LinksAt(i);
      }
    }

    twostate lemma AttachedIn(temp: Node, new node: Node, new l: bool, new k: nat)
      requires old(Links()) && old(allocated(node)) && Attached(node, temp, l, k)
      ensures In(node) && forall m :: m in old(order) ==> old(In(m)) && In(m)
    {
      old_AllIn();
      assert order[k] == node;
      forall m | m in old(order)
        ensures In(m)
      {
        assert old(order[m.idx]) == m;
      }
    }

    twostate lemma old_AllIn()
      requires old(Links())
      ensures forall m :: m in old(order) ==> old(In(m))
    {
      forall m | m in old(order)
        ensures old(In(m))
      {
        var i :| 0 <= i < old(|order|) && old(order[i]) == m;
        assert old(LinksAt(i));
      }
    }

    twostate lemma AttachedLinksOf(temp: Node, new node: Node, new l: bool, new k: nat, new m: Node)
      requires old(Slot(temp, l, k)) && k <= old(|order|) && old(allocated(node)) && node != sentinel
      requires old(sentinel !in order && node !in order) && Attached(node, temp, l, k) && m in old(order)
      requires In(node) && forall x :: x in old(order) ==> old(In(x)) && In(x)
      requires old(In(m) && LinksAt(m.idx)) && old(LinksAt(temp.idx)) && root in old(order)
      ensures LinksAt(m.idx)
    {
    }

    twostate lemma AttachedPaintOf(temp: Node, new node: Node, new l: bool, new k: nat, new m: Node)
      requires old(Slot(temp, l, k)) && k <= old(|order|) && old(allocated(node)) && node != sentinel
      requires old(sentinel !in order && node !in order) && Attached(node, temp, l, k) && m in old(order)
      requires old(In(m) && LinksAt(m.idx) && HeightAt(m.idx) && ColorAt(m.idx, null)) && In(m) && LinksAt(m.idx)
      requires sentinel.bh == 0 && old(sentinel.bh) == 0 && !sentinel.red && node.bh == 0
      requires forall x :: x in old(order) ==> x.red == old(x.red) && x.bh == old(x.bh)
      ensures HeightAt(m.idx) && ColorAt(m.idx, node)
    {
    }

    twostate lemma AttachedNode(temp: Node, new node: Node, new l: bool, new k: nat, new i: nat)
      requires old(Valid()) && old(Slot(temp, l, k)) && k <= old(|order|) && old(allocated(node)) && node != sentinel
      requires old(node !in order && root in order) && Attached(node, temp, l, k)
      requires sentinel.bh == 0 && !sentinel.red && node.bh == 0 && node.red
      requires forall x :: x in old(order) ==> x.red == old(x.red) && x.bh == old(x.bh)
      requires In(node) && forall x :: x in old(order) ==> old(In(x)) && In(x)
      requires i < |order| && i != k
      ensures var m := order[i];
        && m in old(order) && m.idx == i && In(m) && m != node
        && old(In(m) && LinksAt(m.idx) && HeightAt(m.idx) && ColorAt(m.idx, null))
    {
      var j := if i < k then i else i - 1;
      assert old(order[j]) == order[i] && old(LinksAt(j) && HeightAt(j) && ColorAt(j, null));
    }

    twostate lemma AttachedAt(temp: Node, new node: Node, new l: bool, new k: nat, new i: nat)
      requires old(Valid()) && old(Slot(temp, l, k)) && k <= old(|order|) && old(allocated(node)) && node != sentinel
      requires old(node !in order && root in order) && Attached(node, temp, l, k)
      requires sentinel.bh == 0 && !sentinel.red && node.bh == 0 && node.red
      requires forall x :: x in old(order) ==> x.red == old(x.red) && x.bh == old(x.bh)
      requires In(node) && forall x :: x in old(order) ==> old(In(x)) && In(x)
      requires i < |order| && i != k
      ensures LinksAt(i) && HeightAt(i) && ColorAt(i, node)
    {
      assert old(LinksAt(temp.idx) && In(temp) && sentinel !in order && sentinel.bh == 0);
      hide LinksAt, HeightAt, ColorAt, Valid, Links;
      AttachedNode(temp, node, l, k, i);
      AttachedLinksOf(temp, node, l, k, order[i]);
      AttachedPaintOf(temp, node, l, k, order[i]);
    }

    twostate lemma AttachedGrowing(temp: Node, new node: Node, new l: bool, new k: nat)
      requires old(Valid()) && old(Slot(temp, l, k)) && k <= old(|order|) && old(allocated(node)) && node != sentinel
      requires old(node !in order && root in order) && Attached(node, temp, l, k)
      requires sentinel.bh == 0 && !sentinel.red && node.bh == 0 && node.red
      requires forall x :: x in old(order) ==> x.red == old(x.red) && x.bh == old(x.bh)
      ensures Growing(node)
    {
      AttachedIn(temp, node, l, k);
      assert LinksAt(k);
      forall i | 0 <= i < |order| && i != k
        ensures LinksAt(i) && HeightAt(i) && ColorAt(i, node)
      {
        AttachedAt(temp, node, l, k, i);
      }
    }

    method LinkIn(node: Node, temp: Node, l: bool, ghost k: nat)
      requires Valid() && root != sentinel && node !in order && node != sentinel && Slot(temp, l, k) && k <= |order|
      modifies `order, order`left, order`right, order`idx, order`lo, order`hi, node
      ensures Growing(node) && node.key == old(node.key)
      ensures order == old(order[..k]) + [node] + old(order[k..])
    {
      hide LinksAt, HeightAt, ColorAt, Growing;
      Attach(node, temp, l, k);
      AttachedGrowing(temp, node, l, k);
    }

    method InsertValue(node: Node) returns (ghost k: nat)
      requires Valid() && root != sentinel && node !in order && node != sentinel
      modifies `order, order`left, order`right, order`idx, order`lo, order`hi, node
      ensures Growing(node) && node.key == old(node.key)
      ensures forall m :: m in order ==> m in old(order) || m == node
      ensures k <= old(|order|) && order == old(order[..k]) + [node] + old(order[k..])
      ensures k > 0 ==> !Less(timer, node.key, order[k - 1].key)
      ensures k + 1 < |order| ==> Less(timer, node.key, order[k + 1].key)
    {
      hide Growing, LinksAt, HeightAt, ColorAt, Less;
      var temp, l;
      temp, l, k := FindSlot(node);
      LinkIn(node, temp, l, k);
      hide Links, Valid;
      assert k > 0 ==> order[k - 1] == old(order[k - 1]);
      assert k + 1 < |order| ==> order[k + 1] == old(order[k]);
    }

    /** The uncle is black: turn the inner case into the outer one, then rotate at `g`. */
    method BlackUncle(l: bool, n: Node, p: Node, g: Node) returns (m: Node)
      requires Growing(n) && n != root && n.parent == p && p.red && p != root && p.parent == g
      requires In(p) && LinksAt(p.idx) && In(g) && LinksAt(g.idx)
      requires g.Kid(l) == p && !g.Kid(!l).red
      modifies `root, order`left, order`right, order`parent, order`lo, order`hi, order`red, order`bh
      ensures Growing(m) && m.parent != null && !m.parent.red
    {
      if n == (if l then p.right else p.left) {
        InsertInner(l, n, p);
        m := p;
        InsertOuter(l, p, n, g);
      } else {
        m := n;
        InsertOuter(l, n, p, g);
      }
    }

    method InsertFixup(node: Node)
      requires Growing(node)
      modifies `root, order`left, order`right, order`parent, order`lo, order`hi, order`red, order`bh
      ensures Valid()
    {
      var n: Node := node;
      while n != root && n.parent.red
        invariant Growing(n)
        decreases n != root && n.parent.red, |order| - (n.hi - n.lo)
      {
        assert LinksAt(n.parent.idx) && LinksAt(root.idx) && ColorAt(n.parent.idx, n);
        assert LinksAt(n.parent.parent.idx);
        if n.parent == n.parent.parent.left {
          n := InsertStep(true, n, n.parent, n.parent.parent);
        } else {
          n := InsertStep(false, n, n.parent, n.parent.parent);
        }
      }
      BlackenRoot(n);
    }

    /** One step of the fixup; `l` says that the parent `p` is a left child. */
    method InsertStep(l: bool, n: Node, p: Node, g: Node) returns (m: Node)
      requires Growing(n) && n != root && n.parent == p && p.red && p != root && p.parent == g
      requires In(p) && LinksAt(p.idx) && In(g) && LinksAt(g.idx) && g.Kid(l) == p
      modifies `root, order`left, order`right, order`parent, order`lo, order`hi, order`red, order`bh
      ensures Growing(m)
      ensures m.hi - m.lo > old(n.hi - n.lo) || (m.parent != null && !m.parent.red)
    {
      var temp := if l then g.right else g.left;
      if temp.red {
        RecolorUncle(p, temp, g, n);
        m := g;
      } else {
        m := BlackUncle(l, n, p, g);
      }
    }

    /** The keys of `s` lie in the window at `base` and are in order. */
    ghost predicate SortedSeq(base: Key, s: seq<Node>)
      reads s`key
    {
      && (forall i :: 0 <= i < |s| ==> Fits(timer, base, s[i].key))
      && (forall i, j :: 0 <= i <= j < |s| ==> Rank(timer, base, s[i].key) <= Rank(timer, base, s[j].key))
    }

    ghost predicate Sorted(base: Key)
      reads `order, order`key
    {
      SortedSeq(base, order)
    }

    /** The root of a fixed-up tree is painted black. */
    method BlackenRoot(ghost n: Node)
      requires Growing(n) && (n == root || !n.parent.red)
      modifies root`red, root`bh
      ensures Valid()
    {
      assert LinksAt(root.idx);
      root.bh := if root.red then root.bh + 1 else root.bh;
      root.red := false;
      assert Links();
      forall i | 0 <= i < |order|
        ensures LinksAt(i) && HeightAt(i) && ColorAt(i, null)
      {
        assert old(LinksAt(i) && HeightAt(i) && ColorAt(i, n));
      }
    }

    /** A key that is placed between its neighbours is in order with all of them. */
    lemma SpliceSorted(base: Key, s: seq<Node>, k: nat, node: Node)
      requires SortedSeq(base, s) && k <= |s| && Fits(timer, base, node.key)
      requires k > 0 ==> !Less(timer, node.key, s[k - 1].key)
      requires k < |s| ==> Less(timer, node.key, s[k].key)
      ensures SortedSeq(base, s[..k] + [node] + s[k..])
    {
      if k > 0 {
        LessIsRankOrder(timer, base, node.key, s[k - 1].key);
      }
      if k < |s| {
        LessIsRankOrder(timer, base, node.key, s[k].key);
      }
      hide Rank, Less, Fits;
      var now := s[..k] + [node] + s[k..];
      forall i, j | 0 <= i <= j < |now|
        ensures Fits(timer, base, now[i].key) && Rank(timer, base, now[i].key) <= Rank(timer, base, now[j].key)
      {
        SplicedAt(s, k, node, i);
        SplicedAt(s, k, node, j);
      }
    }

    lemma SplicedAt(s: seq<Node>, k: nat, node: Node, i: nat)
      requires k <= |s| && i <= |s|
      ensures (s[..k] + [node] + s[k..])[i] == if i < k then s[i] else if i == k then node else s[i - 1]
    {
    }

    twostate lemma InsertKeepsOrder(node: Node, new k: nat, new base: Key)
      requires old(Sorted(base)) && Fits(timer, base, node.key) && k <= old(|order|)
      requires order == old(order[..k]) + [node] + old(order[k..])
      requires forall m :: m in old(order) ==> m.key == old(m.key)
      requires k > 0 ==> !Less(timer, node.key, order[k - 1].key)
      requires k + 1 < |order| ==> Less(timer, node.key, order[k + 1].key)
      ensures Sorted(base)
    {
      hide Rank, Less, Fits;
      var was := old(order);
      assert SortedSeq(base, was);
      assert k > 0 ==> order[k - 1] == was[k - 1];
      assert k < |was| ==> order[k + 1] == was[k];
      SpliceSorted(base, was, k, node);
    }

    method InsertFirst(node: Node)
      requires Valid() && root == sentinel && node != sentinel
      modifies `root, `order, node
      ensures Valid() && node.key == old(node.key) && order == [node] && old(order) == []
    {
      assert order == [];
      node.parent := null;
      node.left := sentinel;
      node.right := sentinel;
      node.red := false;
      root := node;
      node.idx, node.lo, node.hi, node.bh := 0, 0, 1, 1;
      order := [node];
      assert LinksAt(0);
    }

    method Place(node: Node) returns (ghost k: nat)
      requires Valid() && node !in order && node != sentinel
      modifies this, order, node
      ensures Valid() && node.key == old(node.key) && (forall m :: m in old(order) ==> m.key == old(m.key))
      ensures k <= old(|order|) && order == old(order[..k]) + [node] + old(order[k..])
      ensures k > 0 ==> !Less(timer, node.key, order[k - 1].key)
      ensures k + 1 < |order| ==> Less(timer, node.key, order[k + 1].key)
    {
      hide Growing;
      if root == sentinel {
        k := 0;
        InsertFirst(node);
        return;
      }
      k := InsertValue(node);
      InsertFixup(node);
    }

    /** Link `node` in after the nodes that are not greater; nodes with equal keys keep
        the order in which they came. */
    method Insert(node: Node) returns (ghost k: nat)
      requires Valid() && node !in order && node != sentinel
      modifies this, order, node
      ensures Valid() && node.key == old(node.key) && (forall m :: m in old(order) ==> m.key == old(m.key))
      ensures k <= old(|order|) && order == old(order[..k]) + [node] + old(order[k..])
      ensures k > 0 ==> !Less(timer, node.key, order[k - 1].key)
      ensures k + 1 < |order| ==> Less(timer, node.key, order[k + 1].key)
      ensures forall base :: old(Sorted(base)) && Fits(timer, base, node.key) ==> Sorted(base)
    {
      hide Growing, Sorted;
      k := Place(node);
      hide Valid;
      forall base | old(Sorted(base)) && Fits(timer, base, node.key)
        ensures Sorted(base)
      {
        InsertKeepsOrder(node, k, base);
      }
    }

    ghost predicate HeightBut(i: nat, p: Node?)
      requires i < |order| && LinksAt(i)
      reads this, order, sentinel
    {
      order[i] == p || HeightAt(i)
    }

    ghost predicate ColorBut(i: nat, t: Node)
      requires i < |order| && LinksAt(i)
      reads this, order, sentinel
    {
      order[i] == t || ColorAt(i, t)
    }

    /** Heights are right except at `p`, and colours except around `t`. */
    ghost predicate AllBut(p: Node?, t: Node)
      reads this, order, sentinel
    {
      forall i :: 0 <= i < |order| ==> LinksAt(i) && HeightBut(i, p) && ColorBut(i, t)
    }

    /** `t` is the child of `p` on side `l` and its black height is one too small. */
    ghost predicate Short(t: Node, p: Node?, l: bool)
      reads this, order, sentinel, t
    {
      && (t == sentinel || (In(t) && LinksAt(t.idx)))
      && (t != root ==> In(p) && LinksAt(p.idx) && t.parent == p && p.Kid(l) == t)
      && (t != root ==> p.Kid(!l).bh == t.bh + 1 && p.bh == t.bh + 1 + (if p.red then 0 else 1))
    }

    /** The state inside the deletion fixup: paths through `t`, the child of `p` on side `l`,
        are one black node short, unless `t` is the root. `t` may be red and clash with
        its parent or its children. */
    ghost predicate Shrinking(t: Node, p: Node?, l: bool)
      reads this, order, sentinel, t
    {
      && Links() && order != [] && !root.red
      && !sentinel.red && sentinel.bh == 0
      && Short(t, p, l)
      && AllBut(if t == root then null else p, t)
    }

    twostate lemma RedSiblingPair(p: Node, new l: bool, new w: Node, new t: Node)
      requires w in old(order) && (t == sentinel || t in old(order)) && Rotated(l, p, w) && Repainted(p, w, w)
      requires !sentinel.red && sentinel.bh == 0 && sentinel !in order && p != sentinel && w != sentinel
      requires old(In(p) && In(w) && LinksAt(p.idx) && LinksAt(w.idx) && HeightAt(w.idx) && ColorAt(w.idx, null))
      requires old(p.Kid(!l)) == w && old(p.Kid(l)) == t && t != w && t != p
      requires old(w.red && !p.red && w.bh == t.bh + 1 && p.bh == w.bh + 1 && !t.red)
      requires !w.red && p.red && w.bh == old(p.bh) && p.bh == old(p.bh) - 1
      requires LinksAt(p.idx) && LinksAt(w.idx)
      ensures HeightAt(w.idx) && ColorAt(w.idx, null) && ColorAt(p.idx, null)
      ensures p.Kid(l) == t && !p.Kid(!l).red && p.Kid(!l).bh == t.bh + 1 && p.bh == t.bh + 1
    {
    }

    twostate lemma RotatedButAt(p: Node, new l: bool, new w: Node, new o: Node, new t: Node, new i: nat)
      requires old(Links()) && old(In(p)) && old(p.Kid(!l)) == w && w != sentinel
      requires o in old(order) && (o == w || old(o.parent) == w)
      requires Rotated(l, p, w) && Links() && Repainted(p, w, o)
      requires w.bh == old(p.bh) && (w.red ==> old(p.red))
      requires i < |order| && i != p.idx && i != w.idx && i != o.idx
      requires (t == sentinel || t in old(order)) && old(!t.red) && !t.red
      requires old(LinksAt(i) && HeightBut(i, p) && ColorBut(i, t))
      ensures LinksAt(i) && HeightAt(i) && ColorAt(i, null) && HeightBut(i, p) && ColorBut(i, t)
    {
      assert old(LinksAt(p.idx));
      assert old(LinksAt(i));
      assert old(order[i] != p);
      RotatedPaintAt(p, l, w, o, i);
    }

    twostate lemma RedSiblingShort(p: Node, new l: bool, new w: Node, new t: Node)
      requires w in old(order) && (t == sentinel || t in old(order)) && Rotated(l, p, w) && Repainted(p, w, w)
      requires old(Shrinking(t, p, l)) && t != old(root) && old(!t.red && p.Kid(!l) == w && w.red)
      requires !w.red && p.red && w.bh == old(p.bh) && p.bh == old(p.bh) - 1 && Links()
      requires !sentinel.red && sentinel.bh == 0 && t.parent == old(t.parent)
      requires t.red == old(t.red) && t.bh == old(t.bh)
      ensures Short(t, p, l) && t != root && !t.red && !p.Kid(!l).red && !root.red && order != []
      ensures LinksAt(p.idx) && LinksAt(w.idx) && HeightAt(w.idx) && ColorAt(w.idx, null) && ColorAt(p.idx, null)
    {
      assert old(LinksAt(w.idx) && HeightBut(w.idx, p) && ColorBut(w.idx, t));
      assert LinksAt(p.idx) && LinksAt(w.idx);
      RedSiblingPair(p, l, w, t);
    }

    twostate lemma RedSiblingShrinks(p: Node, new l: bool, new w: Node, new t: Node)
      requires w in old(order) && (t == sentinel || t in old(order)) && Rotated(l, p, w) && Repainted(p, w, w)
      requires old(Shrinking(t, p, l)) && t != old(root) && old(!t.red && p.Kid(!l) == w && w.red)
      requires !w.red && p.red && w.bh == old(p.bh) && p.bh == old(p.bh) - 1 && Links()
      requires !sentinel.red && sentinel.bh == 0 && t.parent == old(t.parent)
      requires t.red == old(t.red) && t.bh == old(t.bh)
      ensures Shrinking(t, p, l) && t != root && !t.red && !p.Kid(!l).red
    {
      RedSiblingShort(p, l, w, t);
      assert HeightBut(p.idx, p) && ColorBut(p.idx, t) && HeightBut(w.idx, p) && ColorBut(w.idx, t);
      hide Short, LinksAt, HeightAt, ColorAt, HeightBut, ColorBut, Rotated, Repainted;
      forall i | 0 <= i < |order|
        ensures LinksAt(i) && HeightBut(i, p) && ColorBut(i, t)
      {
        if i != p.idx && i != w.idx {
          assert old(LinksAt(i) && HeightBut(i, p) && ColorBut(i, t));
          RotatedButAt(p, l, w, w, t, i);
        }
      }
      assert AllBut(p, t);
    }

    /** The sibling `w` is red: rotate it above `p`, so that the new sibling is black. */
    method RedSibling(l: bool, t: Node, p: Node, w: Node)
      requires Shrinking(t, p, l) && t != root && !t.red && p.Kid(!l) == w && w.red
      modifies `root, order`left, order`right, order`parent, order`lo, order`hi, order`red, order`bh
      ensures Shrinking(t, p, l) && t != root && !t.red && p.Kid(!l) != null && !p.Kid(!l).red
      ensures t != sentinel ==> t.hi - t.lo == old(t.hi - t.lo)
    {
      assert LinksAt(p.idx) && ColorBut(p.idx, t);
      assert LinksAt(w.idx) && HeightBut(w.idx, p) && ColorBut(w.idx, t);
      LinksTurnable(l, p);
      PaintAndTurn(l, p, w);
      RotatedLinks(p, l, w);
      RedSiblingShrinks(p, l, w, t);
    }

    /** The sibling `w` has turned red and the shortage has moved up to `p`. */
    twostate predicate Passed(p: Node, w: Node)
      reads this, order, sentinel
    {
      && p in order && w in order && p != w && order == old(order)
      && old(!w.red) && w.red && w.bh == old(w.bh) - 1
      && p.bh == old(p.bh) - 1 && p.red == old(p.red)
      && sentinel.red == old(sentinel.red) && sentinel.bh == old(sentinel.bh)
      && forall m :: m in order && m != p && m != w ==> m.red == old(m.red) && m.bh == old(m.bh)
    }

    twostate lemma PassedAt(p: Node, new l: bool, new t: Node, new w: Node, new i: nat)
      requires w in old(order) && (t == sentinel || t in old(order)) && Passed(p, w)
      requires i < |order| && old(LinksAt(i) && HeightBut(i, p) && ColorBut(i, t)) && LinksAt(i)
      requires old(In(p) && In(w) && LinksAt(p.idx) && LinksAt(w.idx) && HeightAt(w.idx) && sentinel !in order)
      requires forall m :: m in order ==> m.left == old(m.left) && m.right == old(m.right)
      requires old(p.Kid(l) == t && p.Kid(!l) == w && t != root && w != t && w != p && t != p && sentinel.bh == 0)
      requires old(!t.red && !w.left.red && !w.right.red && w.bh == t.bh + 1 && !sentinel.red)
      requires old(p.bh == t.bh + 1 + (if p.red then 0 else 1))
      requires p.parent == old(p.parent) && root == old(root) && In(p) && LinksAt(p.idx)
      ensures HeightBut(i, if p == root then null else p.parent) && ColorBut(i, p)
    {
    }

    twostate lemma PassedShort(p: Node, new l: bool, new t: Node, new w: Node)
      requires w in old(order) && (t == sentinel || t in old(order)) && Passed(p, w) && Links()
      requires old(Shrinking(t, p, l)) && old(t != root && p.Kid(!l) == w && w != sentinel)
      requires old(w.left != null && w.right != null && !t.red && !w.left.red && !w.right.red)
      requires forall m :: m in order ==>
        m.left == old(m.left) && m.right == old(m.right) && m.parent == old(m.parent) && m.idx == old(m.idx)
      requires root == old(root)
      ensures Short(p, p.parent, p != root && p.parent.left == p) && !root.red
      ensures order != [] && order == old(order) && !sentinel.red && sentinel.bh == 0
      ensures old(In(p) && In(w) && LinksAt(p.idx) && LinksAt(w.idx) && HeightAt(w.idx) && sentinel !in order)
      ensures LinksAt(p.idx)
    {
      assert old(LinksAt(w.idx)) && old(HeightBut(w.idx, p)) && old(LinksAt(root.idx));
      assert LinksAt(p.idx);
      if p != root {
        PassedParent(p, l, t, w);
      }
    }

    twostate lemma PassedParent(p: Node, new l: bool, new t: Node, new w: Node)
      requires w in old(order) && (t == sentinel || t in old(order))
      requires Passed(p, w) && Links() && old(Shrinking(t, p, l)) && p != root && old(root) == root && old(In(p))
      requires forall m :: m in order ==>
        m.left == old(m.left) && m.right == old(m.right) && m.parent == old(m.parent) && m.idx == old(m.idx)
      ensures In(p) && In(p.parent) && LinksAt(p.idx) && LinksAt(p.parent.idx)
      ensures old(In(p.parent) && LinksAt(p.parent.idx) && HeightBut(p.parent.idx, p))
    {
      assert LinksAt(p.idx);
      assert LinksAt(p.parent.idx);
      assert old(LinksAt(p.parent.idx) && HeightBut(p.parent.idx, p));
    }

    twostate lemma PassedShrinks(p: Node, new l: bool, new t: Node, new w: Node)
      requires w in old(order) && (t == sentinel || t in old(order)) && Passed(p, w) && Links()
      requires old(Shrinking(t, p, l)) && old(t != root && p.Kid(!l) == w && w != sentinel)
      requires old(w.left != null && w.right != null && !t.red && !w.left.red && !w.right.red)
      requires forall m :: m in order ==>
        m.left == old(m.left) && m.right == old(m.right) && m.parent == old(m.parent) && m.idx == old(m.idx)
      requires root == old(root)
      ensures Shrinking(p, p.parent, p != root && p.parent.left == p)
    {
      PassedShort(p, l, t, w);
      assert old(p.Kid(l)) == t;
      hide Short, LinksAt, HeightAt, HeightBut, ColorBut, Passed;
      var q := if p == root then null else p.parent;
      forall i | 0 <= i < |order|
        ensures LinksAt(i) && HeightBut(i, q) && ColorBut(i, p)
      {
        assert old(LinksAt(i) && HeightBut(i, p) && ColorBut(i, t));
        assert LinksAt(i);
        PassedAt(p, l, t, w, i);
      }
      assert AllBut(q, p);
    }

    method PaintSibling(p: Node, w: Node)
      requires p in order && w in order && p != w && !w.red && w.bh > 0 && p.bh > 0 && sentinel !in order
      modifies order`red, order`bh
      ensures Passed(p, w)
    {
      w.red := true;
      w.bh, p.bh := w.bh - 1, p.bh - 1;
    }

    /** The sibling `w` and both nephews are black. */
    method PassUp(l: bool, t: Node, p: Node, w: Node)
      requires Shrinking(t, p, l) && t != root && !t.red && p.Kid(!l) == w && !w.red
      requires w.left != null && !w.left.red && w.right != null && !w.right.red
      modifies order`red, order`bh
      ensures Shrinking(p, p.parent, p != root && p.parent.left == p) && p != sentinel
      ensures t != sentinel ==> p.hi - p.lo > t.hi - t.lo
    {
      assert LinksAt(p.idx);
      PaintSibling(p, w);
      assert Links();
      PassedShrinks(p, l, t, w);
    }

    twostate lemma InnerNephewPair(w: Node, new l: bool, new c: Node)
      requires c in old(order) && Rotated(!l, w, c) && Repainted(w, c, c)
      requires !sentinel.red && sentinel.bh == 0 && sentinel !in order && w != sentinel && c != sentinel
      requires old(In(w) && In(c) && LinksAt(w.idx) && LinksAt(c.idx) && HeightAt(w.idx) && HeightAt(c.idx)
        && ColorAt(c.idx, null))
      requires old(w.Kid(l) == c && w.Kid(!l) != null && !w.Kid(!l).red && !w.red && c.red)
      requires !c.red && w.red && c.bh == old(w.bh) && w.bh == old(w.bh) - 1
      requires LinksAt(w.idx) && LinksAt(c.idx)
      ensures HeightAt(w.idx) && ColorAt(w.idx, null) && HeightAt(c.idx) && ColorAt(c.idx, null)
    {
    }

    twostate lemma InnerNephewEnds(w: Node, new l: bool, new c: Node, new p: Node, new t: Node)
      requires c in old(order) && p in old(order) && (t == sentinel || t in old(order))
      requires Rotated(!l, w, c) && Repainted(w, c, c)
      requires old(Shrinking(t, p, l)) && t != old(root)
      requires old(!t.red && p.Kid(!l) == w && !w.red && w.Kid(l) == c && c.red && w.Kid(!l) != null && !w.Kid(!l).red)
      requires !c.red && w.red && c.bh == old(w.bh) && w.bh == old(w.bh) - 1 && Links()
      requires !sentinel.red && sentinel.bh == 0 && sentinel.parent == old(sentinel.parent)
      ensures LinksAt(w.idx) && HeightBut(w.idx, p) && ColorBut(w.idx, t)
      ensures LinksAt(c.idx) && HeightBut(c.idx, p) && ColorBut(c.idx, t)
    {
      assert old(LinksAt(w.idx) && HeightBut(w.idx, p) && ColorBut(w.idx, t));
      assert old(LinksAt(c.idx) && HeightBut(c.idx, p) && ColorBut(c.idx, t));
      assert LinksAt(w.idx) && LinksAt(c.idx);
      InnerNephewPair(w, l, c);
    }

    twostate lemma InnerNephewAt(w: Node, new l: bool, new c: Node, new p: Node, new t: Node, new i: nat)
      requires c in old(order) && p in old(order) && (t == sentinel || t in old(order))
      requires Rotated(!l, w, c) && Repainted(w, c, c)
      requires old(Shrinking(t, p, l)) && t != old(root)
      requires old(!t.red && p.Kid(!l) == w && !w.red && w.Kid(l) == c && c.red && w.Kid(!l) != null && !w.Kid(!l).red)
      requires !c.red && w.red && c.bh == old(w.bh) && w.bh == old(w.bh) - 1 && Links()
      requires !sentinel.red && sentinel.bh == 0 && sentinel.parent == old(sentinel.parent)
      requires i < |order|
      ensures LinksAt(i) && HeightBut(i, p) && ColorBut(i, t)
    {
      if i == w.idx || i == c.idx {
        hide LinksAt, HeightBut, ColorBut;
        InnerNephewEnds(w, l, c, p, t);
      } else {
        assert old(LinksAt(i) && HeightBut(i, p) && ColorBut(i, t));
        assert LinksAt(i);
        if i == p.idx {
          assert order[i] == p;
        } else {
          RotatedPaintAt(w, !l, c, c, i);
        }
      }
    }

    twostate lemma InnerNephewShort(w: Node, new l: bool, new c: Node, new p: Node, new t: Node)
      requires c in old(order) && p in old(order) && (t == sentinel || t in old(order))
      requires Rotated(!l, w, c) && Repainted(w, c, c)
      requires old(Shrinking(t, p, l)) && t != old(root)
      requires old(!t.red && p.Kid(!l) == w && !w.red && w.Kid(l) == c && c.red && w.Kid(!l) != null && !w.Kid(!l).red)
      requires !c.red && w.red && c.bh == old(w.bh) && w.bh == old(w.bh) - 1 && Links()
      requires !sentinel.red && sentinel.bh == 0 && sentinel.parent == old(sentinel.parent)
      ensures Short(t, p, l) && t != root && !t.red && p.Kid(!l) == c && c.Kid(!l) == w && !root.red
    {
      assert old(LinksAt(w.idx) && LinksAt(c.idx));
      assert LinksAt(p.idx);
      if t != sentinel {
        assert LinksAt(t.idx);
      }
    }

    twostate lemma InnerNephewShrinks(w: Node, new l: bool, new c: Node, new p: Node, new t: Node)
      requires c in old(order) && p in old(order) && (t == sentinel || t in old(order))
      requires Rotated(!l, w, c) && Repainted(w, c, c)
      requires old(Shrinking(t, p, l)) && t != old(root)
      requires old(!t.red && p.Kid(!l) == w && !w.red && w.Kid(l) == c && c.red && w.Kid(!l) != null && !w.Kid(!l).red)
      requires !c.red && w.red && c.bh == old(w.bh) && w.bh == old(w.bh) - 1 && Links()
      requires !sentinel.red && sentinel.bh == 0 && sentinel.parent == old(sentinel.parent)
      ensures Shrinking(t, p, l) && t != root && !t.red && p.Kid(!l) == c && !c.red && c.Kid(!l) == w && w.red
    {
      InnerNephewShort(w, l, c, p, t);
      hide Short, LinksAt, HeightBut, ColorBut, Rotated, Repainted;
      forall i | 0 <= i < |order|
        ensures LinksAt(i) && HeightBut(i, p) && ColorBut(i, t)
      {
        InnerNephewAt(w, l, c, p, t, i);
      }
    }

    /** Only the inner nephew `c` is red: rotate it above the sibling `w`. */
    method InnerNephew(l: bool, t: Node, p: Node, w: Node, c: Node)
      requires Shrinking(t, p, l) && t != root && !t.red && p.Kid(!l) == w && !w.red
      requires w.Kid(l) == c && c.red && w.Kid(!l) != null && !w.Kid(!l).red
      modifies `root, order`left, order`right, order`parent, order`lo, order`hi, order`red, order`bh
      ensures Shrinking(t, p, l) && t != root && !t.red && p.Kid(!l) == c && !c.red && c.Kid(!l) == w && w.red
    {
      assert LinksAt(p.idx) && ColorBut(p.idx, t);
      assert LinksAt(w.idx) && HeightBut(w.idx, p) && ColorBut(w.idx, t);
      LinksTurnable(!l, w);
      PaintAndTurn(!l, w, c);
      RotatedLinks(w, !l, c);
      InnerNephewShrinks(w, l, c, p, t);
    }

    method CopyAndTurn(l: bool, p: Node, w: Node, o: Node)
      requires Turnable(l, p, w) && o in order && o != p && o != w && sentinel !in order
      modifies `root, order`left, order`right, order`parent, order`lo, order`hi, order`red, order`bh
      ensures Rotated(l, p, w) && Repainted(p, w, o)
      ensures w.red == old(p.red) && !p.red && !o.red && w.bh == old(p.bh) && p.bh == old(w.bh) && o.bh == old(o.bh) + 1
    {
      CopyPaint(p, w, o);
      Turn(l, p, w);
    }

    method CopyPaint(p: Node, w: Node, o: Node)
      requires o in order && p in order && w in order && o != p && o != w && p != w && sentinel !in order
      modifies order`red, order`bh
      ensures Repainted(p, w, o)
      ensures w.red == old(p.red) && !p.red && !o.red && w.bh == old(p.bh) && p.bh == old(w.bh) && o.bh == old(o.bh) + 1
    {
      w.red := p.red;
      p.red := false;
      o.red := false;
      w.bh, p.bh, o.bh := p.bh, w.bh, o.bh + 1;
    }

    twostate lemma OuterNephewSelf(p: Node, new l: bool, new w: Node, new o: Node, new t: Node)
      requires w in old(order) && o in old(order) && (t == sentinel || t in old(order))
      requires Rotated(l, p, w) && Repainted(p, w, o)
      requires old(Shrinking(t, p, l)) && t != old(root) && Links()
      requires old(!t.red && p.Kid(!l) == w && !w.red && w.Kid(!l) == o && o.red)
      requires w.red == old(p.red) && !p.red && !o.red && w.bh == old(p.bh)
      requires p.bh == old(w.bh) && o.bh == old(o.bh) + 1
      requires !sentinel.red && sentinel.bh == 0
      ensures In(o) && LinksAt(o.idx) && HeightAt(o.idx) && ColorAt(o.idx, null)
    {
      assert old(LinksAt(w.idx));
      assert old(LinksAt(o.idx) && HeightBut(o.idx, p) && ColorBut(o.idx, t));
      assert LinksAt(o.idx);
    }

    twostate lemma OuterNephewEnds(p: Node, new l: bool, new w: Node, new o: Node, new t: Node)
      requires w in old(order) && o in old(order) && (t == sentinel || t in old(order))
      requires Rotated(l, p, w) && Repainted(p, w, o)
      requires old(Shrinking(t, p, l)) && t != old(root) && Links()
      requires old(!t.red && p.Kid(!l) == w && !w.red && w.Kid(!l) == o && o.red)
      requires w.red == old(p.red) && !p.red && !o.red && w.bh == old(p.bh)
      requires p.bh == old(w.bh) && o.bh == old(o.bh) + 1
      requires !sentinel.red && sentinel.bh == 0
      ensures LinksAt(p.idx) && HeightAt(p.idx) && ColorAt(p.idx, null)
      ensures LinksAt(w.idx) && HeightAt(w.idx) && ColorAt(w.idx, null)
    {
      assert old(LinksAt(w.idx) && HeightBut(w.idx, p) && ColorBut(w.idx, t));
      assert old(LinksAt(o.idx) && HeightBut(o.idx, p) && ColorBut(o.idx, t));
      assert LinksAt(p.idx) && LinksAt(w.idx);
    }

    twostate lemma OuterNephewAt(p: Node, new l: bool, new w: Node, new o: Node, new t: Node, new i: nat)
      requires w in old(order) && o in old(order) && (t == sentinel || t in old(order))
      requires Rotated(l, p, w) && Repainted(p, w, o)
      requires old(Shrinking(t, p, l)) && t != old(root) && Links()
      requires old(!t.red && p.Kid(!l) == w && !w.red && w.Kid(!l) == o && o.red)
      requires w.red == old(p.red) && !p.red && !o.red && w.bh == old(p.bh)
      requires p.bh == old(w.bh) && o.bh == old(o.bh) + 1
      requires !sentinel.red && sentinel.bh == 0
      requires i < |order|
      ensures LinksAt(i) && HeightAt(i) && ColorAt(i, null)
    {
      if i == p.idx || i == w.idx || i == o.idx {
        hide LinksAt, HeightAt, ColorAt;
        OuterNephewEnds(p, l, w, o, t);
        OuterNephewSelf(p, l, w, o, t);
      } else {
        assert old(LinksAt(w.idx));
        assert old(LinksAt(i) && HeightBut(i, p) && ColorBut(i, t));
        RotatedButAt(p, l, w, o, t, i);
      }
    }

    twostate lemma OuterNephewValid(p: Node, new l: bool, new w: Node, new o: Node, new t: Node)
      requires w in old(order) && o in old(order) && (t == sentinel || t in old(order))
      requires Rotated(l, p, w) && Repainted(p, w, o)
      requires old(Shrinking(t, p, l)) && t != old(root) && Links()
      requires old(!t.red && p.Kid(!l) == w && !w.red && w.Kid(!l) == o && o.red)
      requires w.red == old(p.red) && !p.red && !o.red && w.bh == old(p.bh)
      requires p.bh == old(w.bh) && o.bh == old(o.bh) + 1
      requires !sentinel.red && sentinel.bh == 0
      ensures Valid()
    {
      assert old(LinksAt(p.idx)) && old(LinksAt(root.idx));
      assert !root.red;
      hide LinksAt, HeightAt, ColorAt, Rotated, Repainted;
      forall i | 0 <= i < |order|
        ensures LinksAt(i) && HeightAt(i) && ColorAt(i, null)
      {
        OuterNephewAt(p, l, w, o, t, i);
      }
    }

    /** The outer nephew `o` is red: rotate the sibling `w` above `p`, which repairs the tree. */
    method OuterNephew(l: bool, t: Node, p: Node, w: Node, o: Node)
      requires Shrinking(t, p, l) && t != root && !t.red && p.Kid(!l) == w && !w.red
      requires w.Kid(!l) == o && o.red
      modifies `root, order`left, order`right, order`parent, order`lo, order`hi, order`red, order`bh
      ensures Valid()
    {
      assert LinksAt(p.idx) && ColorBut(p.idx, t);
      assert LinksAt(w.idx) && HeightBut(w.idx, p) && ColorBut(w.idx, t);
      assert LinksAt(o.idx);
      LinksTurnable(l, p);
      CopyAndTurn(l, p, w, o);
      RotatedLinks(p, l, w);
      OuterNephewValid(p, l, w, o, t);
    }

    /** Painting `t` black makes up for the shortage at the root or at a red node. */
    method Blacken(t: Node, ghost p: Node?, ghost l: bool)
      requires Shrinking(t, p, l) && t != sentinel && (t == root || t.red)
      modifies order`red, order`bh
      ensures Valid()
    {
      assert LinksAt(t.idx);
      t.bh := if t.red then t.bh + 1 else t.bh;
      t.red := false;
      assert Links();
      forall i | 0 <= i < |order|
        ensures LinksAt(i) && HeightAt(i) && ColorAt(i, null)
      {
        assert old(LinksAt(i) && HeightBut(i, if t == root then null else p) && ColorBut(i, t));
      }
    }

    /** The sibling `w` is black and has a red child. */
    method RedNephew(l: bool, t: Node, p: Node, w: Node)
      requires Shrinking(t, p, l) && t != root && !t.red && p.Kid(!l) == w && !w.red && LinksAt(p.idx)
      requires w.left != null && w.right != null && (w.left.red || w.right.red)
      modifies `root, order`left, order`right, order`parent, order`lo, order`hi, order`red, order`bh
      ensures Valid()
    {
      assert LinksAt(w.idx);
      if !(if l then w.right else w.left).red {
        InnerNephew(l, t, p, w, if l then w.left else w.right);
        assert LinksAt(p.idx);
        OuterNephew(l, t, p, if l then p.right else p.left, w);
      } else {
        OuterNephew(l, t, p, w, if l then w.right else w.left);
      }
    }

    lemma ValidShrinks(p: Node?, l: bool)
      requires Valid() && order != []
      ensures Shrinking(root, p, l)
    {
      assert LinksAt(root.idx);
      forall i | 0 <= i < |order|
        ensures LinksAt(i) && HeightBut(i, null) && ColorBut(i, root)
      {
        assert LinksAt(i) && HeightAt(i) && ColorAt(i, null);
      }
    }

    method BlackSibling(l: bool, t: Node, p: Node, w: Node) returns (m: Node)
      requires Shrinking(t, p, l) && t != root && !t.red && LinksAt(p.idx) && p.Kid(!l) == w && !w.red
      modifies `root, order`left, order`right, order`parent, order`lo, order`hi, order`red, order`bh
      ensures Shrinking(m, m.parent, m != root && m.parent != null && m.parent.left == m) && m != sentinel
      ensures m == root || (t != sentinel ==> m.hi - m.lo > old(t.hi - t.lo))
    {
      assert LinksAt(w.idx);
      hide LinksAt, Valid;
      if !w.left.red && !w.right.red {
        PassUp(l, t, p, w);
        m := p;
      } else {
        RedNephew(l, t, p, w);
        m := root;
        ValidShrinks(m.parent, false);
      }
    }

    /** One step of the deletion fixup; `l` says that `t` is a left child. */
    method DeleteStep(l: bool, t: Node, p: Node) returns (m: Node)
      requires Shrinking(t, p, l) && t != root && !t.red && LinksAt(p.idx)
      modifies `root, order`left, order`right, order`parent, order`lo, order`hi, order`red, order`bh
      ensures Shrinking(m, m.parent, m != root && m.parent != null && m.parent.left == m) && m != sentinel
      ensures m == root || (t != sentinel ==> m.hi - m.lo > old(t.hi - t.lo))
    {
      var w := if l then p.right else p.left;
      if w.red {
        RedSibling(l, t, p, w);
        assert LinksAt(p.idx);
        w := if l then p.right else p.left;
      }
      hide LinksAt, Shrinking;
      m := BlackSibling(l, t, p, w);
    }

    /** The sibling of a short node is not the sentinel, and so the test for a left child tells the side,
        even when the short node is the sentinel. */
    lemma SiblingIsReal(t: Node, p: Node?, l: bool)
      requires Shrinking(t, p, l) && t != root
      ensures p != null && t.parent == p && p.Kid(!l) != sentinel && (t == p.left <==> l)
    {
    }

    method DeleteFixup(temp: Node, ghost p: Node?, ghost l: bool)
      requires Shrinking(temp, p, l)
      modifies `root, order`left, order`right, order`parent, order`lo, order`hi, order`red, order`bh
      ensures Valid()
    {
      var t := temp;
      ghost var q, side := p, l;
      while t != root && !t.red
        invariant Shrinking(t, q, side)
        decreases t != root && !t.red, t == sentinel, |order| - (t.hi - t.lo)
      {
        SiblingIsReal(t, q, side);
        assert LinksAt(q.idx);
        if t == t.parent.left {
          t := DeleteStep(true, t, t.parent);
        } else {
          t := DeleteStep(false, t, t.parent);
        }
        q, side := t.parent, t != root && t.parent != null && t.parent.left == t;
      }
      Blacken(t, q, side);
    }

    /** Close the gap that position `e` leaves in places and slices. */
    ghost method Narrow(e: nat)
      modifies order`idx, order`lo, order`hi
      ensures forall m :: m in order ==>
        && m.idx == (if old(m.idx) > e then old(m.idx) - 1 else old(m.idx))
        && m.lo == (if old(m.lo) > e then old(m.lo) - 1 else old(m.lo))
        && m.hi == (if old(m.hi) > e then old(m.hi) - 1 else old(m.hi))
    {
      forall m | m in order {
        m.lo := if m.lo > e then m.lo - 1 else m.lo;
      }
      forall m | m in order {
        m.hi := if m.hi > e then m.hi - 1 else m.hi;
      }
      forall m | m in order {
        m.idx := if m.idx > e then m.idx - 1 else m.idx;
      }
    }

    /** What it does to take out `node`, whose only child or sentinel is `temp`. */
    twostate predicate Unlinked(node: Node, temp: Node)
      reads this, order, temp
    {
      && old(In(node)) && root == old(root) && (temp == sentinel || temp in old(order))
      && order == old(order[..node.idx]) + old(order[node.idx + 1..])
      && temp.parent == old(node.parent)
      && (forall m :: m in old(order) && m != node && m in order ==>
            && m.left == (if old(m == node.parent && m.left == node) then temp else old(m.left))
            && m.right == (if old(m == node.parent && m.left != node) then temp else old(m.right))
            && m.parent == (if m == temp then old(node.parent) else old(m.parent))
            && m.idx == (if old(m.idx > node.idx) then old(m.idx) - 1 else old(m.idx))
            && m.lo == (if old(m.lo > node.idx) then old(m.lo) - 1 else old(m.lo))
            && m.hi == (if old(m.hi > node.idx) then old(m.hi) - 1 else old(m.hi)))
    }

    /** Places are distinct. */
    ghost predicate Distinct()
      reads `order, order`idx
    {
      forall m :: m in order ==> m.idx < |order| && order[m.idx] == m
    }

    method Unlink(node: Node, temp: Node)
      requires In(node) && node.parent in order && node.parent != node && temp != node
      requires temp == sentinel || temp in order
      requires sentinel !in order && Distinct()
      modifies `order, order`left, order`right, order`parent, sentinel`parent, order`idx, order`lo, order`hi
      ensures Unlinked(node, temp) && node.left == old(node.left) && node.right == old(node.right)
    {
      if node == node.parent.left {
        node.parent.left := temp;
      } else {
        node.parent.right := temp;
      }
      temp.parent := node.parent;
      ghost var d := node.idx;
      Narrow(d);
      order := order[..d] + order[d + 1..];
    }

    /** The nodes are still there, except for `node`. */
    twostate predicate KeptBut(node: Node)
      reads *
    {
      forall x :: x in old(order) && x != node ==> old(In(x)) && In(x)
    }

    /** No node has been repainted. */
    twostate predicate SamePaint()
      reads *
    {
      forall x :: x in old(order) ==> x.red == old(x.red) && x.bh == old(x.bh)
    }

    twostate lemma UnlinkedIn(node: Node, new temp: Node)
      requires old(Links()) && (temp == sentinel || temp in old(order)) && Unlinked(node, temp)
      ensures node !in order
      ensures KeptBut(node)
    {
      old_AllIn();
      forall m | m in old(order) && m != node
        ensures In(m)
      {
        var i := old(m.idx);
        assert m == order[if i > old(node.idx) then i - 1 else i];
      }
      forall j | 0 <= j < |order|
        ensures order[j] != node
      {
        assert old(LinksAt(if j >= node.idx then j + 1 else j));
      }
    }

    twostate lemma UnlinkedLinksOfParent(node: Node, new temp: Node, new m: Node)
      requires (temp == sentinel || temp in old(order)) && Unlinked(node, temp)
      requires m in old(order) && m != node && node !in order && temp != node
      requires old(sentinel !in order) && sentinel !in order && node != root
      requires old(In(node) && LinksAt(node.idx) && In(m) && LinksAt(m.idx)) && root in old(order)
      requires temp != sentinel ==> old(In(temp)) && old(LinksAt(temp.idx))
      requires old((node.left == sentinel && node.right == temp) || (node.right == sentinel && node.left == temp))
      requires KeptBut(node)
      requires m == old(node.parent)
      ensures LinksAt(m.idx)
    {
    }

    twostate lemma UnlinkedLinksOfChild(node: Node, new temp: Node, new m: Node)
      requires (temp == sentinel || temp in old(order)) && Unlinked(node, temp)
      requires m in old(order) && m != node && node !in order && temp != node
      requires old(sentinel !in order) && sentinel !in order && node != root
      requires old(In(node) && LinksAt(node.idx) && In(m) && LinksAt(m.idx)) && root in old(order)
      requires temp != sentinel ==> old(In(temp)) && old(LinksAt(temp.idx))
      requires old((node.left == sentinel && node.right == temp) || (node.right == sentinel && node.left == temp))
      requires KeptBut(node)
      requires m == temp
      ensures LinksAt(m.idx)
    {
    }

    twostate lemma UnlinkedLinksOfOther(node: Node, new temp: Node, new m: Node)
      requires (temp == sentinel || temp in old(order)) && Unlinked(node, temp)
      requires m in old(order) && m != node && node !in order && temp != node
      requires old(sentinel !in order) && sentinel !in order && node != root
      requires old(In(node) && LinksAt(node.idx) && In(m) && LinksAt(m.idx)) && root in old(order)
      requires temp != sentinel ==> old(In(temp)) && old(LinksAt(temp.idx))
      requires old((node.left == sentinel && node.right == temp) || (node.right == sentinel && node.left == temp))
      requires KeptBut(node)
      requires m != temp && m != old(node.parent)
      ensures LinksAt(m.idx)
    {
    }

    twostate lemma UnlinkedPaintOf(node: Node, new temp: Node, new m: Node)
      requires (temp == sentinel || temp in old(order)) && Unlinked(node, temp)
      requires m in old(order) && m != node && temp != node && In(m)
      requires LinksAt(m.idx) && sentinel !in order && node != root
      requires old(In(node) && LinksAt(node.idx) && In(m) && LinksAt(m.idx) && HeightAt(node.idx)
        && ColorAt(node.idx, null))
      requires old(HeightAt(m.idx) && ColorAt(m.idx, null))
      requires old((node.left == sentinel && node.right == temp) || (node.right == sentinel && node.left == temp))
      requires sentinel.bh == 0 && !sentinel.red && old(sentinel.bh == 0 && !sentinel.red)
      requires SamePaint()
      ensures if old(node.red) then HeightAt(m.idx) && ColorAt(m.idx, null)
        else HeightBut(m.idx, old(node.parent)) && ColorBut(m.idx, temp)
    {
    }

    twostate lemma UnlinkedNode(node: Node, new temp: Node, new i: nat)
      requires old(Valid()) && (temp == sentinel || temp in old(order)) && Unlinked(node, temp) && node != root
      requires i < |order| && node !in order && KeptBut(node)
      requires old((node.left == sentinel && node.right == temp) || (node.right == sentinel && node.left == temp))
      ensures var m := order[i];
        && m != node && m in old(order) && In(m) && m.idx == i
        && old(In(m) && LinksAt(m.idx) && HeightAt(m.idx) && ColorAt(m.idx, null))
    {
      var m := order[i];
      var j := if i >= old(node.idx) then i + 1 else i;
      assert old(order[j]) == m;
      assert old(LinksAt(j) && HeightAt(j) && ColorAt(j, null));
      assert m.idx == i;
    }

    twostate lemma UnlinkedLinksAt(node: Node, new temp: Node, new i: nat)
      requires old(Valid()) && (temp == sentinel || temp in old(order)) && Unlinked(node, temp) && node != root
      requires i < |order| && node !in order && KeptBut(node)
      requires old((node.left == sentinel && node.right == temp) || (node.right == sentinel && node.left == temp))
      ensures LinksAt(i)
      ensures var m := order[i];
        && m != node && m in old(order) && In(m) && m.idx == i
        && old(In(m) && LinksAt(m.idx) && HeightAt(m.idx) && ColorAt(m.idx, null))
    {
      assert old(LinksAt(node.idx));
      assert temp != sentinel ==> old(In(temp)) && old(LinksAt(temp.idx));
      assert sentinel !in order && old(sentinel !in order && root in order && In(node)) && temp != node;
      hide LinksAt, HeightAt, ColorAt, Links, Valid, KeptBut;
      UnlinkedNode(node, temp, i);
      if order[i] == temp {
        UnlinkedLinksOfChild(node, temp, order[i]);
      } else if order[i] == old(node.parent) {
        UnlinkedLinksOfParent(node, temp, order[i]);
      } else {
        UnlinkedLinksOfOther(node, temp, order[i]);
      }
    }

    twostate lemma UnlinkedAt(node: Node, new temp: Node, new i: nat)
      requires old(Valid()) && (temp == sentinel || temp in old(order)) && Unlinked(node, temp) && node != root
      requires i < |order| && node !in order && sentinel.bh == 0 && !sentinel.red
      requires old((node.left == sentinel && node.right == temp) || (node.right == sentinel && node.left == temp))
      requires SamePaint() && KeptBut(node)
      ensures LinksAt(i)
      ensures if old(node.red) then HeightAt(i) && ColorAt(i, null)
        else HeightBut(i, old(node.parent)) && ColorBut(i, temp)
    {
      assert old(LinksAt(node.idx) && HeightAt(node.idx) && ColorAt(node.idx, null));
      assert sentinel !in order && temp != node && old(In(node) && sentinel.bh == 0 && !sentinel.red);
      hide LinksAt, HeightAt, ColorAt, HeightBut, ColorBut, Links, Valid, KeptBut, SamePaint;
      UnlinkedLinksAt(node, temp, i);
      UnlinkedPaintOf(node, temp, order[i]);
    }

    twostate lemma UnlinkedValid(node: Node, new temp: Node)
      requires old(Valid()) && (temp == sentinel || temp in old(order)) && Unlinked(node, temp) && node != root
      requires sentinel.bh == 0 && !sentinel.red
      requires old((node.left == sentinel && node.right == temp) || (node.right == sentinel && node.left == temp))
      requires SamePaint()
      requires old(node.red)
      ensures Valid()
    {
      UnlinkedIn(node, temp);
      assert old(In(root)) && In(root) && old(sentinel !in order);
      assert sentinel !in order;
      hide LinksAt, HeightAt, ColorAt, Unlinked;
      forall i | 0 <= i < |order|
        ensures LinksAt(i) && HeightAt(i) && ColorAt(i, null)
      {
        UnlinkedAt(node, temp, i);
      }
      assert forall i :: 0 <= i < |order| ==> LinksAt(i) && HeightAt(i) && ColorAt(i, null);
    }

    twostate lemma UnlinkedShortLinks(node: Node, new temp: Node, new p: Node)
      requires old(Valid()) && (temp == sentinel || temp in old(order)) && Unlinked(node, temp) && node != root
      requires sentinel.bh == 0 && !sentinel.red
      requires old((node.left == sentinel && node.right == temp) || (node.right == sentinel && node.left == temp))
      requires SamePaint()
      requires p == old(node.parent) && !old(node.red) && Links()
      requires KeptBut(node)
      ensures temp != root && In(p) && LinksAt(p.idx) && temp.parent == p
      ensures p.left == (if old(p.left == node) then temp else old(p.left))
      ensures p.right == (if old(p.left == node) then old(p.right) else temp)
      ensures temp == sentinel || (In(temp) && LinksAt(temp.idx))
    {
      assert old(LinksAt(node.idx)) && old(LinksAt(p.idx)) && LinksAt(p.idx);
      if temp != sentinel {
        assert old(LinksAt(temp.idx)) && LinksAt(temp.idx);
      }
    }

    twostate lemma UnlinkedShort(node: Node, new temp: Node, new p: Node)
      requires old(Valid()) && (temp == sentinel || temp in old(order)) && Unlinked(node, temp) && node != root
      requires sentinel.bh == 0 && !sentinel.red
      requires old((node.left == sentinel && node.right == temp) || (node.right == sentinel && node.left == temp))
      requires SamePaint()
      requires p == old(node.parent) && !old(node.red) && Links()
      requires KeptBut(node)
      ensures temp != root && Short(temp, p, old(node.parent.left == node))
    {
      assert old(LinksAt(node.idx) && HeightAt(node.idx)) && old(LinksAt(p.idx) && HeightAt(p.idx));
      UnlinkedShortLinks(node, temp, p);
      assert p in old(order) && p.red == old(p.red) && p.bh == old(p.bh) && temp.bh == old(temp.bh);
      hide Links, Unlinked, KeptBut;
    }

    twostate lemma UnlinkedShrinks(node: Node, new temp: Node, new p: Node)
      requires old(Valid()) && (temp == sentinel || temp in old(order)) && Unlinked(node, temp) && node != root
      requires sentinel.bh == 0 && !sentinel.red
      requires old((node.left == sentinel && node.right == temp) || (node.right == sentinel && node.left == temp))
      requires SamePaint()
      requires p == old(node.parent) && !old(node.red)
      ensures temp != root && Shrinking(temp, p, old(node.parent.left == node))
    {
      UnlinkedIn(node, temp);
      assert old(In(root)) && In(root) && old(sentinel !in order) && !root.red;
      assert sentinel !in order;
      forall i | 0 <= i < |order|
        ensures LinksAt(i) && HeightBut(i, p) && ColorBut(i, temp)
      {
        hide LinksAt, HeightBut, ColorBut, Unlinked;
        UnlinkedAt(node, temp, i);
      }
      hide LinksAt, HeightBut, ColorBut, Unlinked, Valid, Short;
      UnlinkedShort(node, temp, p);
    }

    /** `subst` has stepped into the place of `node`. */
    twostate predicate Replaced(node: Node, subst: Node, temp: Node)
      reads this, order, subst, sentinel, temp
    {
      && old(In(node)) && subst !in old(order) && subst != sentinel
      && order == old(order[node.idx := subst])
      && root == (if old(root) == node then subst else old(root))
      && subst.left == old(node.left) && subst.right == old(node.right) && subst.parent == old(node.parent)
      && subst.idx == old(node.idx) && subst.lo == old(node.lo) && subst.hi == old(node.hi)
      && subst.red == old(node.red) && subst.bh == old(node.bh)
      && temp.parent == (if old(temp.parent) == node then subst else old(temp.parent))
      && sentinel.red == old(sentinel.red) && sentinel.bh == old(sentinel.bh)
      && (forall m :: m in old(order) && m != node && m in order ==>
            && m.left == (if old(node != root && m == node.parent && m.left == node) then subst else old(m.left))
            && m.right == (if old(node != root && m == node.parent && m.left != node) then subst else old(m.right))
            && m.parent == (if m == old(node.left) || m == old(node.right) then subst else old(m.parent))
            && m.idx == old(m.idx) && m.lo == old(m.lo) && m.hi == old(m.hi)
            && m.red == old(m.red) && m.bh == old(m.bh))
    }

    method CopyPlace(subst: Node, node: Node)
      requires subst != node && node.left != null && node.right != null
      modifies subst`left, subst`right, subst`parent, subst`red, subst`idx, subst`lo, subst`hi, subst`bh
      ensures subst.left == node.left && subst.right == node.right
      ensures subst.parent == node.parent && subst.red == node.red
      ensures subst.idx == node.idx && subst.lo == node.lo && subst.hi == node.hi && subst.bh == node.bh
    {
      subst.left := node.left;
      subst.right := node.right;
      subst.parent := node.parent;
      subst.red := node.red;
      subst.idx, subst.lo, subst.hi, subst.bh := node.idx, node.lo, node.hi, node.bh;
    }

    /** The parent's link to `node` now leads to `subst`. */
    method RelinkParent(subst: Node, node: Node)
      requires node != root ==> node.parent in order
      modifies `root, order`left, order`right
      ensures root == (if old(root) == node then subst else old(root))
      ensures forall m :: m in order ==>
        && m.left == (if old(node != root && m == node.parent && m.left == node) then subst else old(m.left))
        && m.right == (if old(node != root && m == node.parent && m.left != node) then subst else old(m.right))
    {
      if node == root {
        root := subst;
      } else if node == node.parent.left {
        node.parent.left := subst;
      } else {
        node.parent.right := subst;
      }
    }

    /** The children that `subst` has taken over now lead up to it. */
    method RelinkChildren(subst: Node)
      requires subst !in order && subst != sentinel && sentinel !in order
      requires (subst.left == sentinel || subst.left in order) && (subst.right == sentinel || subst.right in order)
      modifies order`parent
      ensures forall m :: m in order ==>
        m.parent == (if m == subst.left || m == subst.right then subst else old(m.parent))
    {
      if subst.left != sentinel {
        subst.left.parent := subst;
      }
      if subst.right != sentinel {
        subst.right.parent := subst;
      }
    }

    /** The links now lead to `subst`, which has those of `node`. */
    twostate predicate Relinked(node: Node, subst: Node, temp: Node)
      reads this, order, subst, temp
    {
      && order == old(order) && root == (if old(root) == node then subst else old(root))
      && subst.left == old(node.left) && subst.right == old(node.right) && subst.parent == old(node.parent)
      && subst.idx == old(node.idx) && subst.lo == old(node.lo) && subst.hi == old(node.hi)
      && subst.red == old(node.red) && subst.bh == old(node.bh)
      && temp.parent == (if old(temp.parent) == node then subst else old(temp.parent))
      && (forall m :: m in order && m != node ==>
            && m.left == (if old(node != root && m == node.parent && m.left == node) then subst else old(m.left))
            && m.right == (if old(node != root && m == node.parent && m.left != node) then subst else old(m.right))
            && m.parent == (if m == old(node.left) || m == old(node.right) then subst else old(m.parent)))
    }

    method Relink(subst: Node, node: Node, temp: Node)
      requires In(node) && subst !in order && subst != sentinel && sentinel !in order && subst != node
      requires (node.left == sentinel || node.left in order) && (node.right == sentinel || node.right in order)
      requires node.left != node && node.right != node && node.left != null && node.right != null
      requires node != root ==>
        node.parent in order && node.parent != node && node.parent != node.left && node.parent != node.right
      requires temp == sentinel || (temp in order && (temp.parent == node <==> temp == node.left || temp == node.right))
      requires temp != node
      modifies `root, order`left, order`right, order`parent, sentinel`parent
      modifies subst`left, subst`right, subst`parent, subst`red, subst`idx, subst`lo, subst`hi, subst`bh
      ensures Relinked(node, subst, temp)
    {
      if temp.parent == node {
        temp.parent := subst;
      }
      CopyPlace(subst, node);
      RelinkParent(subst, node);
      RelinkChildren(subst);
    }

    method TakePlace(subst: Node, node: Node, temp: Node)
      requires In(node) && subst !in order && subst != sentinel && sentinel !in order && subst != node
      requires (node.left == sentinel || node.left in order) && (node.right == sentinel || node.right in order)
      requires node.left != node && node.right != node && node.left != null && node.right != null
      requires node != root ==>
        node.parent in order && node.parent != node && node.parent != node.left && node.parent != node.right
      requires temp == sentinel || (temp in order && (temp.parent == node <==> temp == node.left || temp == node.right))
      requires temp != node
      modifies `root, `order, order`left, order`right, order`parent, sentinel`parent
      modifies subst`left, subst`right, subst`parent, subst`red, subst`idx, subst`lo, subst`hi, subst`bh
      ensures Replaced(node, subst, temp)
    {
      Relink(subst, node, temp);
      order := order[node.idx := subst];
    }

    twostate lemma ReplacedIn(node: Node, new subst: Node, new temp: Node)
      requires old(allocated(subst)) && (temp == sentinel || temp in old(order)) && Replaced(node, subst, temp)
      requires old(Links())
      ensures In(subst) && node !in order && KeptBut(node)
    {
      old_AllIn();
      assert order[subst.idx] == subst;
      forall m | m in old(order) && m != node
        ensures In(m)
      {
        assert order[old(m.idx)] == m;
      }
      forall j | 0 <= j < |order|
        ensures order[j] != node
      {
        assert old(LinksAt(j)) && old(LinksAt(node.idx));
      }
    }

    twostate lemma ReplacedLinksOfSelf(node: Node, new subst: Node, new temp: Node)
      requires old(allocated(subst)) && (temp == sentinel || temp in old(order)) && Replaced(node, subst, temp)
      requires old(Links()) && In(subst) && KeptBut(node)
      ensures LinksAt(subst.idx)
    {
      assert old(LinksAt(node.idx));
    }

    twostate lemma ReplacedLinksOf(node: Node, new subst: Node, new temp: Node, new m: Node)
      requires old(allocated(subst)) && (temp == sentinel || temp in old(order)) && Replaced(node, subst, temp)
      requires m in old(order) && m != node && old(In(m) && LinksAt(m.idx)) && In(subst) && KeptBut(node)
      requires old(sentinel !in order && In(node) && LinksAt(node.idx)) && sentinel !in order
      ensures LinksAt(m.idx)
    {
    }

    twostate lemma ReplacedLinks(node: Node, new subst: Node, new temp: Node)
      requires old(allocated(subst)) && (temp == sentinel || temp in old(order)) && Replaced(node, subst, temp)
      requires old(Links())
      ensures Links() && In(subst) && node !in order && KeptBut(node)
    {
      ReplacedIn(node, subst, temp);
      assert old(sentinel !in order && In(node) && LinksAt(node.idx));
      assert sentinel !in order && (root == subst || (old(In(root)) && In(root)));
      forall i | 0 <= i < |order|
        ensures LinksAt(i)
      {
        if i == subst.idx {
          ReplacedLinksOfSelf(node, subst, temp);
        } else {
          assert old(LinksAt(i));
          assert order[i] == old(order[i]);
          ReplacedLinksOf(node, subst, temp, order[i]);
        }
      }
    }

    /** Heights and colours at a place do not notice the replacement. */
    twostate lemma ReplacedPaintAt(node: Node, new subst: Node, new temp: Node, new p: Node, new i: nat)
      requires old(allocated(subst)) && (temp == sentinel || temp in old(order)) && Replaced(node, subst, temp)
      requires old(Links()) && Links() && In(subst) && KeptBut(node) && i < |order| && temp != node
      requires old(LinksAt(i)) && LinksAt(i) && old(sentinel.bh == 0 && !sentinel.red)
      requires p in old(order)
      ensures old(HeightAt(i)) ==> HeightAt(i)
      ensures old(HeightBut(i, p)) ==> HeightBut(i, if p == node then subst else p)
      ensures old(ColorBut(i, temp)) ==> ColorBut(i, temp)
      ensures old(ColorAt(i, null)) ==> ColorAt(i, null)
    {
      assert old(LinksAt(node.idx));
      if i != subst.idx {
        assert order[i] == old(order[i]);
      }
      assert order[i].red == old(order[i].red) && order[i].bh == old(order[i].bh);
    }

    twostate lemma ReplacedValid(node: Node, new subst: Node, new temp: Node)
      requires old(allocated(subst)) && (temp == sentinel || temp in old(order)) && Replaced(node, subst, temp)
      requires old(Valid()) && temp != node
      ensures Valid() && node !in order
    {
      ReplacedLinks(node, subst, temp);
      assert !root.red by {
        assert old(In(root)) && In(root);
      }
      forall i | 0 <= i < |order|
        ensures LinksAt(i) && HeightAt(i) && ColorAt(i, null)
      {
        assert old(LinksAt(i) && HeightAt(i) && ColorAt(i, null));
        assert LinksAt(i);
        ReplacedPaintAt(node, subst, temp, node, i);
      }
    }

    twostate lemma ReplacedShort(node: Node, new subst: Node, new temp: Node, new p: Node, new l: bool)
      requires old(allocated(subst)) && (temp == sentinel || temp in old(order)) && Replaced(node, subst, temp)
      requires p in old(order) && old(Shrinking(temp, p, l)) && temp != node && temp != old(root)
      requires Links() && In(subst) && KeptBut(node)
      ensures temp != root && Short(temp, if p == node then subst else p, l)
      ensures order != [] && !root.red && !sentinel.red && sentinel.bh == 0
    {
      assert !root.red by {
        assert old(In(root)) && In(root);
      }
      assert old(In(p) && LinksAt(p.idx)) && old(LinksAt(node.idx));
      assert LinksAt((if p == node then subst else p).idx);
      if temp != sentinel {
        assert LinksAt(temp.idx);
      }
    }

    twostate lemma ReplacedShrinks(node: Node, new subst: Node, new temp: Node, new p: Node, new l: bool)
      requires old(allocated(subst)) && (temp == sentinel || temp in old(order)) && Replaced(node, subst, temp)
      requires p in old(order) && old(Shrinking(temp, p, l)) && temp != node && temp != old(root)
      ensures node !in order && temp != root && Shrinking(temp, if p == node then subst else p, l)
    {
      var q := if p == node then subst else p;
      ReplacedLinks(node, subst, temp);
      ReplacedShort(node, subst, temp, p, l);
      hide Short, LinksAt, HeightAt, ColorAt, HeightBut, ColorBut, Replaced;
      forall i | 0 <= i < |order|
        ensures LinksAt(i) && HeightBut(i, q) && ColorBut(i, temp)
      {
        assert old(LinksAt(i) && HeightBut(i, p) && ColorBut(i, temp));
        assert LinksAt(i);
        ReplacedPaintAt(node, subst, temp, p, i);
      }
      assert AllBut(q, temp);
    }

    /** After a node was taken out above `t`: all is well if it was red, else `t` is short. */
    ghost predicate Left(red: bool, t: Node, p: Node?, l: bool)
      reads this, order, sentinel, t
    {
      if red then Valid() else Shrinking(t, p, l)
    }

    /** The nodes behind the one taken out are one place further in front. */
    twostate predicate Shifted(node: Node)
      reads this, order
    {
      forall m :: m in order && m in old(order) ==>
        m.idx == (if old(m.idx > node.idx) then old(m.idx) - 1 else old(m.idx))
    }

    lemma Detachable(node: Node, temp: Node)
      requires Valid() && In(node) && node != root
      requires (node.left == sentinel && node.right == temp) || (node.right == sentinel && node.left == temp)
      ensures node.parent in order && node.parent != node && temp != node && (temp == sentinel || temp in order)
      ensures temp != root && sentinel !in order && node != sentinel && Distinct() && Links()
      ensures node.parent.left == node || node.parent.right == node
      ensures forall m :: m in order ==> In(m)
    {
      assert LinksAt(node.idx);
      AllIn();
      assert temp != sentinel ==> LinksAt(temp.idx);
    }

    /** Take `node`, which has `temp` for its only child, out below the root. */
    method Detach(node: Node, temp: Node) returns (ghost l: bool)
      requires Valid() && In(node) && node != root
      requires (node.left == sentinel && node.right == temp) || (node.right == sentinel && node.left == temp)
      modifies `order, order`left, order`right, order`parent, sentinel`parent, order`idx, order`lo, order`hi
      ensures (temp == sentinel || temp in order) && temp != node && node !in order && node != sentinel
      ensures old(node.parent) in order
      ensures temp != root && Left(node.red, temp, old(node.parent), l) && Links()
      ensures temp.parent == old(node.parent)
      ensures (forall m :: m in order ==> m in old(order)) && Shifted(node)
      ensures order == old(order[..node.idx]) + old(order[node.idx + 1..]) && KeptBut(node)
    {
      Detachable(node, temp);
      l := node.parent.left == node;
      hide LinksAt, HeightAt, ColorAt;
      Unlink(node, temp);
      UnlinkedIn(node, temp);
      if node.red {
        UnlinkedValid(node, temp);
      } else {
        UnlinkedShrinks(node, temp, old(node.parent));
      }
    }

    /** A black subtree that is not empty has a black node. */
    lemma BlackCounts(x: Node)
      requires Valid() && (x == sentinel || In(x)) && !x.red
      ensures x == sentinel || x.bh > 0
    {
      if x != sentinel {
        assert LinksAt(x.idx) && HeightAt(x.idx);
      }
    }

    /** An only child of the root is a red leaf. */
    lemma OnlyChild(temp: Node)
      requires Valid() && root != sentinel && temp != sentinel
      requires (root.left == sentinel && root.right == temp) || (root.right == sentinel && root.left == temp)
      ensures temp.left == sentinel && temp.right == sentinel && |order| == 2 && temp.bh == 0
      ensures In(root) && In(temp) && order == if temp.idx == 0 then [temp, root] else [root, temp]
    {
      AllIn();
      assert LinksAt(root.idx) && HeightAt(root.idx);
      assert LinksAt(temp.idx) && HeightAt(temp.idx) && ColorAt(temp.idx, null);
      BlackCounts(temp.left);
      BlackCounts(temp.right);
    }

    method DeleteRoot(node: Node, temp: Node)
      requires Valid() && node in order && node == root
      requires (node.left == sentinel && node.right == temp) || (node.right == sentinel && node.left == temp)
      modifies `root, `order, temp`red, temp`idx, temp`lo, temp`hi, temp`bh
      ensures Valid() && node !in order && old(In(node))
      ensures order == old(order[..node.idx]) + old(order[node.idx + 1..])
    {
      assert LinksAt(node.idx);
      ghost var d := node.idx;
      if temp != sentinel {
        OnlyChild(temp);
        hide LinksAt, HeightAt, ColorAt;
        root := temp;
        temp.red := false;
        temp.idx, temp.lo, temp.hi, temp.bh := 0, 0, 1, 1;
        order := order[..d] + order[d + 1..];
        assert order == [temp];
        OneNode(temp);
      } else {
        root := temp;
        temp.red := false;
        order := order[..d] + order[d + 1..];
        assert order == [];
      }
    }

    lemma OneNode(n: Node)
      requires order == [n] && root == n && n != sentinel && n.left == sentinel && n.right == sentinel
      requires n.idx == 0 && n.lo == 0 && n.hi == 1 && n.bh == 1 && !n.red && sentinel.bh == 0 && !sentinel.red
      ensures Valid()
    {
      assert LinksAt(0);
    }

    method Min(n: Node) returns (m: Node)
      requires Links() && In(n)
      ensures In(m) && m.left == sentinel && m.idx == n.lo
    {
      m := n;
      assert LinksAt(n.idx);
      while m.left != sentinel
        invariant In(m) && LinksAt(m.idx) && m.lo == n.lo
        decreases m.hi - m.lo
      {
        m := m.left;
        assert LinksAt(m.idx);
      }
    }

    predicate Cleared(node: Node)
      reads node
    {
      node.left == null && node.right == null && node.parent == null && node.key == 0
    }

    /** The node leaves the tree with its links and key cleared. */
    method Clear(node: Node)
      modifies node
      ensures Cleared(node)
    {
      node.left := null;
      node.right := null;
      node.parent := null;
      node.key := 0;
    }

    lemma PlaceReady(subst: Node, node: Node, temp: Node)
      requires Links() && In(node) && subst !in order && subst != sentinel && temp != node
      requires temp == sentinel || temp in order
      ensures (node.left == sentinel || node.left in order) && (node.right == sentinel || node.right in order)
      ensures node.left != node && node.right != node && node.left != null && node.right != null
      ensures node != root ==> node.parent != node && node.parent in order
      ensures node != root ==> node.parent != node.left && node.parent != node.right
      ensures temp != sentinel && temp != root ==> (temp.parent == node <==> temp == node.left || temp == node.right)
    {
      assert LinksAt(node.idx);
      AllIn();
      if temp != sentinel {
        assert LinksAt(temp.idx);
      }
      if node != root {
        assert LinksAt(node.parent.idx);
      }
      assert node.left != sentinel ==> LinksAt(node.left.idx);
      assert node.right != sentinel ==> LinksAt(node.right.idx);
    }

    /** Dropping the successor and putting it over `d` amounts to dropping `d`. */
    lemma SpliceOver(s: seq<Node>, d: nat)
      requires d + 1 < |s|
      ensures (s[..d + 1] + s[d + 2..])[d := s[d + 1]] == s[..d] + s[d + 1..]
    {
    }

    /** `subst`, already taken out, steps into the place of `node`; then the shortage it may
        have left behind is repaired. */
    method StepIn(node: Node, subst: Node, temp: Node, red: bool, ghost p: Node, ghost l: bool)
      requires Links() && In(node) && subst !in order && subst != sentinel && temp != node && temp != root
      requires temp == sentinel || temp in order
      requires p in order && Left(red, temp, p, l)
      modifies `root, `order, order`left, order`right, order`parent, sentinel`parent
      modifies subst`left, subst`right, subst`parent, subst`red, subst`idx, subst`lo, subst`hi, subst`bh
      modifies order`red, order`lo, order`hi, order`bh
      ensures Valid() && node !in order && order == old(order)[old(node.idx) := subst]
    {
      hide LinksAt, HeightAt, ColorAt, HeightBut, ColorBut;
      PlaceReady(subst, node, temp);
      TakePlace(subst, node, temp);
      if red {
        ReplacedValid(node, subst, temp);
      } else {
        ReplacedShrinks(node, subst, temp, p, l);
        assert forall m :: m in order ==> m in old(order) || m == subst;
        hide Shrinking, Replaced, Links, Valid;
        DeleteFixup(temp, if p == node then subst else p, l);
      }
    }

    /** Take out a node with two children: `subst`, the next node in order, leaves its own
        place and steps into that of `node`. */
    method DeleteInner(node: Node, subst: Node, temp: Node)
      requires Valid() && In(node) && In(subst) && subst != node && subst.idx == node.idx + 1
      requires subst.left == sentinel && subst.right == temp && subst != root
      requires temp != node && subst != sentinel && In(subst.parent)
      modifies `root, `order, order`left, order`right, order`parent, sentinel`parent
      modifies order`red, order`idx, order`lo, order`hi, order`bh
      ensures Valid() && node !in order
      ensures order == old((order[..subst.idx] + order[subst.idx + 1..])[node.idx := subst])
    {
      hide Valid, Links, Left;
      var red := subst.red;
      ghost var p := subst.parent;
      ghost var l := Detach(subst, temp);
      assert In(node) && node.idx == old(node.idx);
      hide KeptBut;
      StepIn(node, subst, temp, red, p, l);
    }

    /** Which node gives up its place when `node` goes, and the child that moves up there. */
    method Choose(node: Node) returns (subst: Node, temp: Node)
      requires Valid() && In(node)
      ensures In(subst) && (temp == sentinel || In(temp)) && temp != subst
      ensures (subst.left == sentinel && subst.right == temp) || (subst.right == sentinel && subst.left == temp)
      ensures subst != node ==> subst != root && subst.idx == node.idx + 1 && subst.left == sentinel
      ensures subst != node ==> temp != node && subst != sentinel && In(subst.parent)
    {
      assert LinksAt(node.idx) && LinksAt(root.idx);
      if node.left == sentinel {
        temp := node.right;
        subst := node;
      } else if node.right == sentinel {
        temp := node.left;
        subst := node;
      } else {
        subst := Min(node.right);
        assert LinksAt(subst.idx);
        // the least node has no left child, so its test for one always picks the right link
        temp := subst.right;
      }
    }

    method DeleteOuter(node: Node, temp: Node)
      requires Valid() && In(node) && node != root
      requires (node.left == sentinel && node.right == temp) || (node.right == sentinel && node.left == temp)
      modifies `root, `order, order`left, order`right, order`parent, sentinel`parent
      modifies order`red, order`idx, order`lo, order`hi, order`bh
      ensures Valid() && node !in order
      ensures order == old(order[..node.idx]) + old(order[node.idx + 1..])
    {
      hide Valid, Links, Left;
      var red := node.red;
      ghost var p := node.parent;
      ghost var l := Detach(node, temp);
      hide KeptBut, Shifted;
      Mend(red, temp, p, l);
    }

    /** Without a black node less there is nothing to do. */
    method Mend(red: bool, temp: Node, ghost p: Node?, ghost l: bool)
      requires Left(red, temp, p, l)
      modifies `root, order`left, order`right, order`parent, order`lo, order`hi, order`red, order`bh
      ensures Valid()
    {
      if !red {
        DeleteFixup(temp, p, l);
      }
    }

    /** The node is cleared last; the fixup would not notice it earlier. */
    method TakeOut(node: Node)
      requires Valid() && node in order
      modifies this, order, sentinel
      ensures Valid() && node !in order && old(In(node))
      ensures order == old(order[..node.idx]) + old(order[node.idx + 1..])
      ensures Cleared(node)
      ensures forall m :: m in order ==> m.key == old(m.key)
    {
      AllIn();
      assert node != sentinel;
      hide LinksAt, HeightAt, ColorAt, HeightBut, ColorBut, Links;
      var subst, temp := Choose(node);
      if subst == root {
        hide Valid;
        DeleteRoot(node, temp);
      } else if subst == node {
        hide Valid;
        DeleteOuter(node, temp);
      } else {
        hide Valid;
        SpliceOver(order, node.idx);
        DeleteInner(node, subst, temp);
      }
      hide Valid;
      Clear(node);
    }

    /** Take `node`, and only it, out of the tree. */
    method Delete(node: Node)
      requires Valid() && node in order
      modifies this, order, sentinel
      ensures Valid() && node !in order && old(In(node))
      ensures order == old(order[..node.idx]) + old(order[node.idx + 1..])
      ensures Cleared(node)
      ensures forall m :: m in order ==> m.key == old(m.key)
      ensures forall base :: old(Sorted(base)) ==> Sorted(base)
    {
      hide Sorted, Valid;
      TakeOut(node);
      forall base | old(Sorted(base))
        ensures Sorted(base)
      {
        DeleteKeepsOrder(node, base);
      }
    }

    twostate lemma DeleteKeepsOrder(node: Node, new base: Key)
      requires old(Sorted(base)) && old(In(node))
      requires order == old(order[..node.idx]) + old(order[node.idx + 1..])
      requires forall m :: m in order ==> m.key == old(m.key)
      ensures Sorted(base)
    {
      var d := old(node.idx);
      assert forall i :: 0 <= i < d ==> order[i] == old(order[i]);
      assert forall i :: d <= i < |order| ==> order[i] == old(order[i + 1]);
    }

    /** The node after `node` in order, or null after the last one. */
    method Next(node: Node) returns (r: Node?)
      requires Valid() && node in order
      ensures old(In(node))
      ensures r == if node.idx + 1 < |order| then order[node.idx + 1] else null
    {
      AllIn();
      assert LinksAt(node.idx);
      hide HeightAt, ColorAt;
      if node.right != sentinel {
        r := Min(node.right);
        return;
      }
      var n := node;
      while true
        invariant In(n) && LinksAt(n.idx) && n.hi == node.idx + 1
        decreases |order| - (n.hi - n.lo)
      {
        var parent := n.parent;
        if n == root {
          return null;
        }
        assert LinksAt(parent.idx);
        if n == parent.left {
          return parent;
        }
        n := parent;
      }
    }

    /** In-order traversal along the real links. */
    ghost function Walk(n: Node): seq<Node>
      requires Links() && (n == sentinel || In(n))
      reads this, order
      decreases if n == sentinel then 0 else n.hi - n.lo
    {
      if n == sentinel then [] else
        assert LinksAt(n.idx);
        assert n.left != sentinel ==> LinksAt(n.left.idx);
        assert n.right != sentinel ==> LinksAt(n.right.idx);
        Walk(n.left) + [n] + Walk(n.right)
    }

    lemma {:induction false} WalkIsSlice(n: Node)
      requires Links() && (n == sentinel || In(n))
      ensures n != sentinel ==> n.lo < n.hi <= |order| && Walk(n) == order[n.lo..n.hi]
      decreases if n == sentinel then 0 else n.hi - n.lo
    {
      if n != sentinel {
        assert LinksAt(n.idx);
        assert n.left != sentinel ==> LinksAt(n.left.idx);
        assert n.right != sentinel ==> LinksAt(n.right.idx);
        WalkIsSlice(n.left);
        WalkIsSlice(n.right);
        hide LinksAt, Links, In;
        WalkParts(n);
      }
    }

    lemma WalkParts(n: Node)
      requires n != sentinel && n.left != null && n.right != null && Links() && In(n)
      requires n.lo <= n.idx < n.hi <= |order| && order[n.idx] == n
      requires if n.left == sentinel then n.lo == n.idx else In(n.left) && Walk(n.left) == order[n.lo..n.idx]
      requires if n.right == sentinel then n.hi == n.idx + 1
        else In(n.right) && Walk(n.right) == order[n.idx + 1..n.hi]
      ensures Walk(n) == order[n.lo..n.hi]
    {
      SliceJoin(order, n.lo, n.idx, n.hi);
    }

    lemma SliceJoin(s: seq<Node>, lo: nat, i: nat, hi: nat)
      requires lo <= i < hi <= |s|
      ensures s[lo..i] + [s[i]] + s[i + 1..hi] == s[lo..hi]
    {
    }

    /** Following the links from the root visits exactly `order`. */
    lemma WalkIsOrder()
      requires Links()
      ensures Walk(root) == order
    {
      WalkIsSlice(root);
      if root != sentinel {
        assert LinksAt(root.idx);
      }
    }

    /** The number of nodes on the longest way down from `n`. */
    ghost function Height(n: Node): nat
      requires Links() && (n == sentinel || In(n))
      reads this, order
      decreases if n == sentinel then 0 else n.hi - n.lo
    {
      if n == sentinel then 0 else
        assert LinksAt(n.idx);
        assert n.left != sentinel ==> LinksAt(n.left.idx);
        assert n.right != sentinel ==> LinksAt(n.right.idx);
        1 + if Height(n.left) < Height(n.right) then Height(n.right) else Height(n.left)
    }

    lemma {:induction false} HeightBounds(n: Node)
      requires Valid() && (n == sentinel || In(n))
      ensures Height(n) <= 2 * n.bh + (if n.red then 1 else 0)
      ensures n != sentinel ==> n.lo < n.hi && Pow2(n.bh) <= n.hi - n.lo + 1
      decreases if n == sentinel then 0 else n.hi - n.lo
    {
      if n != sentinel {
        assert LinksAt(n.idx) && HeightAt(n.idx) && ColorAt(n.idx, null);
        assert n.left != sentinel ==> LinksAt(n.left.idx);
        assert n.right != sentinel ==> LinksAt(n.right.idx);
        HeightBounds(n.left);
        HeightBounds(n.right);
      }
    }

    /** Searches are logarithmic: with N nodes no way down is longer than 2 log2(N + 1). */
    lemma Balanced()
      requires Valid()
      ensures Pow2(Height(root) / 2) <= |order| + 1
    {
      HeightBounds(root);
      if root != sentinel {
        assert LinksAt(root.idx);
        Pow2Monotone(Height(root) / 2, root.bh);
      }
    }
  }

  ghost function Pow2(n: nat): nat {
    if n == 0 then 1 else 2 * Pow2(n - 1)
  }

  lemma {:induction false} Pow2Monotone(m: nat, n: nat)
    requires m <= n
    ensures Pow2(m) <= Pow2(n)
  {
    if m < n {
      Pow2Monotone(m, n - 1);
    }
  }
}
