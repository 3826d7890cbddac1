/** The radix tree over 32-bit keys: insertion, removal with pruning, longest-prefix lookup and the list of
    nodes to be used again. */
module RadixTree {

  const BITS := 32

  /** A key, its most significant bit first; a mask of n leading ones is the number n. */
  type Key = k: seq<bool> | |k| == BITS witness seq(BITS, i => false)

  type Path = seq<bool>

  /** No node, or the address of one. */
  type Link = int
  const NULL := -1

  /** NGX_RADIX_NO_VALUE, the greatest word. */
  const NO_VALUE: nat := 0xffff_ffff_ffff_ffff

  datatype Node = Node(right: Link, left: Link, parent: Link, value: nat)

  type Nodes = map<nat, Node>

  function Child(node: Node, bit: bool): Link {
    if bit then node.right else node.left
  }

  function WithChild(node: Node, bit: bool, link: Link): Node {
    if bit then node.(right := link) else node.(left := link)
  }

  // ----- what the nodes are

  /** The nodes of the tree by their paths from the root, their paths, and the nodes on the free list in order. */
  datatype Book = Book(at: map<Path, nat>, of: map<nat, Path>, free: seq<nat>)

  function AtOrNull(b: Book, p: Path): Link {
    if p in b.at then b.at[p] else NULL
  }

  predicate NodeOK(nodes: Nodes, b: Book, p: Path)
    requires p in b.at
  {
    b.at[p] in nodes && b.at[p] in b.of && b.of[b.at[p]] == p && |p| <= BITS
    && var node := nodes[b.at[p]];
    node.right == AtOrNull(b, p + [true]) && node.left == AtOrNull(b, p + [false])
    && node.parent == (if p == [] then NULL else AtOrNull(b, p[..|p| - 1]))
    && (p != [] ==> p[..|p| - 1] in b.at)
  }

  /** A node other than the root is there for its value or for nodes below it. */
  predicate Needed(nodes: Nodes, b: Book, p: Path)
    requires p in b.at && b.at[p] in nodes
  {
    p == [] || nodes[b.at[p]].value != NO_VALUE || p + [true] in b.at || p + [false] in b.at
  }

  ghost predicate Tree(nodes: Nodes, b: Book) {
    [] in b.at
    && (forall p {:trigger NodeOK(nodes, b, p)} | p in b.at :: NodeOK(nodes, b, p))
    && (forall a {:trigger b.of[a]} | a in b.of :: b.of[a] in b.at && b.at[b.of[a]] == a)
  }

  /** Every node is needed but for the one at x. */
  ghost predicate Pruned(nodes: Nodes, b: Book, x: Path) {
    forall p {:trigger Needed(nodes, b, p)} | p in b.at && p != x && b.at[p] in nodes :: Needed(nodes, b, p)
  }

  predicate FreeAt(nodes: Nodes, free: seq<nat>, i: nat)
    requires i < |free|
  {
    free[i] in nodes && nodes[free[i]].right == if i + 1 < |free| then free[i + 1] else NULL
  }

  /** The nodes to be used again form a list by their right links, apart from the tree. */
  ghost predicate FreeList(nodes: Nodes, b: Book, head: Link) {
    head == (if b.free == [] then NULL else b.free[0])
    && (forall i: nat {:trigger FreeAt(nodes, b.free, i)} | i < |b.free| :: FreeAt(nodes, b.free, i))
    && (forall i, j | 0 <= i < j < |b.free| :: b.free[i] != b.free[j])
    && (forall i {:trigger b.free[i]} | 0 <= i < |b.free| :: b.free[i] !in b.of)
  }

  // ----- what is stored

  /** The value stored for a prefix. */
  function Stored(nodes: Nodes, b: Book, p: Path): nat {
    if p in b.at && b.at[p] in nodes then nodes[b.at[p]].value else NO_VALUE
  }

  /** The value of the longest prefix of the key, of at most n bits, that is stored. */
  function Longest(nodes: Nodes, b: Book, key: Path, n: nat): nat
    requires n <= |key|
  {
    if Stored(nodes, b, key[..n]) != NO_VALUE then Stored(nodes, b, key[..n])
    else if n == 0 then NO_VALUE else Longest(nodes, b, key, n - 1)
  }

  /** The prefix of m bits is stored, and none of up to n bits that is longer. */
  ghost predicate IsLongest(nodes: Nodes, b: Book, key: Path, n: nat, m: nat)
    requires n <= |key|
  {
    && m <= n && Stored(nodes, b, key[..m]) != NO_VALUE
    && forall k {:trigger key[..k]} | m < k <= n :: Stored(nodes, b, key[..k]) == NO_VALUE
  }

  /** A value is found exactly when a prefix is stored, and it is that of the longest one. */
  lemma {:induction false} LongestIs(nodes: Nodes, b: Book, key: Path, n: nat)
    requires n <= |key|
    ensures var v := Longest(nodes, b, key, n);
      if v == NO_VALUE then forall m {:trigger key[..m]} | 0 <= m <= n :: Stored(nodes, b, key[..m]) == NO_VALUE
      else exists m: nat :: IsLongest(nodes, b, key, n, m) && v == Stored(nodes, b, key[..m])
  {
    hide Stored;
    if Stored(nodes, b, key[..n]) != NO_VALUE {
      assert IsLongest(nodes, b, key, n, n);
    } else if n > 0 {
      LongestIs(nodes, b, key, n - 1);
      if m: nat :| IsLongest(nodes, b, key, n - 1, m) && Longest(nodes, b, key, n) == Stored(nodes, b, key[..m]) {
        assert IsLongest(nodes, b, key, n, m);
      }
    }
  }

  /** The same value is stored for every prefix but p. */
  ghost predicate SameBut(nodes: Nodes, b: Book, nodes': Nodes, b': Book, p: Path) {
    forall q: Path {:trigger Stored(nodes, b, q)} {:trigger Stored(nodes', b', q)} | q != p ::
      Stored(nodes', b', q) == Stored(nodes, b, q)
  }

  // ----- lemmas on paths

  lemma {:induction false} PrefixIn(nodes: Nodes, b: Book, p: Path, n: nat)
    requires Tree(nodes, b) && p in b.at && n <= |p|
    ensures p[..n] in b.at
    decreases |p|
  {
    if n < |p| {
      assert NodeOK(nodes, b, p);
      var q := p[..|p| - 1];
      PrefixIn(nodes, b, q, n);
      assert q[..n] == p[..n];
    } else {
      assert p[..n] == p;
    }
  }

  /** Prefixes longer than the node reached are not in the tree. */
  lemma BeyondOut(nodes: Nodes, b: Book, key: Path, n: nat, m: nat)
    requires Tree(nodes, b) && n < m <= |key| && key[..n + 1] !in b.at
    ensures key[..m] !in b.at
  {
    assert key[..m][..n + 1] == key[..n + 1];
    if key[..m] in b.at {
      PrefixIn(nodes, b, key[..m], n + 1);
    }
  }

  lemma {:induction false} LongestSkips(nodes: Nodes, b: Book, key: Path, n: nat, m: nat)
    requires Tree(nodes, b) && n <= m <= |key| && (n < |key| ==> key[..n + 1] !in b.at)
    ensures Longest(nodes, b, key, m) == Longest(nodes, b, key, n)
  {
    if n < m {
      BeyondOut(nodes, b, key, n, m);
      LongestSkips(nodes, b, key, n, m - 1);
    }
  }

  /** From a node on the path of the key to the next one; below the last bit there is none. */
  lemma StepDown(nodes: Nodes, b: Book, key: Path, i: nat)
    requires Tree(nodes, b) && |key| == BITS && i <= BITS && key[..i] in b.at
    ensures b.at[key[..i]] in nodes
    ensures Child(nodes[b.at[key[..i]]], i < BITS && key[i]) == if i < BITS then AtOrNull(b, key[..i + 1]) else NULL
    ensures nodes[b.at[key[..i]]].value == Stored(nodes, b, key[..i])
  {
    assert NodeOK(nodes, b, key[..i]);
    if i < BITS {
      assert key[..i + 1] == key[..i] + [key[i]];
    } else {
      BelowLast(nodes, b, key[..i], true);
      BelowLast(nodes, b, key[..i], false);
    }
  }

  lemma BelowLast(nodes: Nodes, b: Book, p: Path, bit: bool)
    requires Tree(nodes, b) && |p| == BITS
    ensures p + [bit] !in b.at
  {
    assert p + [bit] !in b.at || NodeOK(nodes, b, p + [bit]);
  }

  lemma RootIn(nodes: Nodes, b: Book)
    requires Tree(nodes, b)
    ensures [] in b.at
  {
  }

  // ----- a node more

  function Extended(b: Book, x: Path, next: nat): Book {
    b.(at := b.at[x := next], of := b.of[next := x])
  }

  function WithNode(nodes: Nodes, node: nat, bit: bool, next: nat): Nodes
    requires node in nodes
  {
    nodes[next := Node(NULL, NULL, node, NO_VALUE)][node := WithChild(nodes[node], bit, next)]
  }

  lemma AddNodeAt(nodes: Nodes, b: Book, p: Path, bit: bool, next: nat, q: Path)
    requires Tree(nodes, b) && p in b.at && |p| < BITS && p + [bit] !in b.at && (q in b.at || q == p + [bit])
    requires next !in b.of
    ensures b.at[p] in nodes
    ensures NodeOK(WithNode(nodes, b.at[p], bit, next), Extended(b, p + [bit], next), q)
  {
    var x := p + [bit];
    assert NodeOK(nodes, b, p);
    assert x[..|x| - 1] == p;
    if q == x {
      BeyondNew(nodes, b, x, true);
      BeyondNew(nodes, b, x, false);
    } else {
      assert NodeOK(nodes, b, q);
      NotBelow(q, x, true);
      NotBelow(q, x, false);
      hide Tree;
      if q != [] {
        assert q[..|q| - 1] != x;
      }
    }
  }

  /** A node without a value is put below the node at p. */
  lemma AddNode(nodes: Nodes, b: Book, p: Path, bit: bool, next: nat)
    requires Tree(nodes, b) && p in b.at && |p| < BITS && p + [bit] !in b.at
    requires next !in b.of
    ensures b.at[p] in nodes
    ensures Tree(WithNode(nodes, b.at[p], bit, next), Extended(b, p + [bit], next))
  {
    hide NodeOK, WithNode, Tree, Extended;
    AddNodeAt(nodes, b, p, bit, next, p);
    ExtendedOwners(nodes, b, p + [bit], next);
    var r, c := WithNode(nodes, b.at[p], bit, next), Extended(b, p + [bit], next);
    forall q | q in c.at
      ensures NodeOK(r, c, q)
    {
      AddNodeAt(nodes, b, p, bit, next, q);
    }
    TreeFromParts(r, c);
  }

  lemma TreeFromParts(nodes: Nodes, b: Book)
    requires [] in b.at && forall p {:trigger NodeOK(nodes, b, p)} | p in b.at :: NodeOK(nodes, b, p)
    requires forall a {:trigger b.of[a]} | a in b.of :: b.of[a] in b.at && b.at[b.of[a]] == a
    ensures Tree(nodes, b)
  {
  }

  lemma ExtendedOwners(nodes: Nodes, b: Book, x: Path, next: nat)
    requires Tree(nodes, b) && x !in b.at && next !in b.of
    ensures var c := Extended(b, x, next);
      && [] in c.at && (forall q :: q in c.at <==> q in b.at || q == x)
      && forall a {:trigger c.of[a]} | a in c.of :: c.of[a] in c.at && c.at[c.of[a]] == a
  {
  }

  lemma BeyondNew(nodes: Nodes, b: Book, x: Path, bit: bool)
    requires Tree(nodes, b) && x !in b.at
    ensures x + [bit] !in b.at && x + [bit] != x
  {
    assert (x + [bit])[..|x|] == x;
    assert x + [bit] !in b.at || NodeOK(nodes, b, x + [bit]);
  }

  lemma NotBelow(q: Path, x: Path, bit: bool)
    requires x != []
    ensures q + [bit] == x <==> q == x[..|x| - 1] && bit == x[|x| - 1]
  {
    if q + [bit] == x {
      assert (q + [bit])[..|x| - 1] == q;
    }
  }

  lemma AddPruned(nodes: Nodes, b: Book, p: Path, bit: bool, next: nat)
    requires Tree(nodes, b) && p in b.at && b.at[p] in nodes && p + [bit] !in b.at && Pruned(nodes, b, p)
    requires next !in b.of
    ensures Pruned(WithNode(nodes, b.at[p], bit, next), Extended(b, p + [bit], next), p + [bit])
  {
    var r, c, x := WithNode(nodes, b.at[p], bit, next), Extended(b, p + [bit], next), p + [bit];
    forall q | q in c.at && q != x && c.at[q] in r
      ensures Needed(r, c, q)
    {
      assert NodeOK(nodes, b, q);
      if q != p {
        assert Needed(nodes, b, q);
      }
    }
  }

  lemma AddStored(nodes: Nodes, b: Book, p: Path, bit: bool, next: nat, q: Path)
    requires Tree(nodes, b) && p in b.at && b.at[p] in nodes && p + [bit] !in b.at
    requires next !in b.of
    ensures Stored(WithNode(nodes, b.at[p], bit, next), Extended(b, p + [bit], next), q) == Stored(nodes, b, q)
  {
    InTree(nodes, b, p);
    if q in b.at {
      InTree(nodes, b, q);
    }
  }

  lemma InTree(nodes: Nodes, b: Book, q: Path)
    requires Tree(nodes, b) && q in b.at
    ensures NodeOK(nodes, b, q)
  {
  }

  // ----- a node less

  predicate Leaf(b: Book, p: Path) {
    p in b.at && p != [] && p + [true] !in b.at && p + [false] !in b.at
  }

  /** The node leaves its parent and goes in front of the free list. */
  function WithoutNode(nodes: Nodes, parent: nat, bit: bool, node: nat, free: Link): Nodes
    requires parent in nodes && node in nodes
  {
    nodes[parent := WithChild(nodes[parent], bit, NULL)][node := nodes[node].(right := free)]
  }

  function Reduced(b: Book, p: Path): Book
    requires p in b.at
  {
    Book(b.at - {p}, b.of - {b.at[p]}, [b.at[p]] + b.free)
  }

  lemma ParentOf(nodes: Nodes, b: Book, p: Path)
    requires Tree(nodes, b) && p in b.at && p != []
    ensures var q := p[..|p| - 1];
      && q in b.at && b.at[q] in nodes && b.at[p] in nodes && b.at[q] != b.at[p]
      && nodes[b.at[p]].parent == b.at[q]
      && (nodes[b.at[q]].right == b.at[p] <==> p[|p| - 1]) && (!p[|p| - 1] ==> nodes[b.at[q]].left == b.at[p])
  {
    var q := p[..|p| - 1];
    assert NodeOK(nodes, b, p);
    assert NodeOK(nodes, b, q);
    assert p == q + [p[|p| - 1]];
    assert q + [true] in b.at ==> NodeOK(nodes, b, q + [true]);
  }

  lemma RemoveAt(nodes: Nodes, b: Book, p: Path, free: Link, q: Path)
    requires Tree(nodes, b) && Leaf(b, p) && q in b.at && q != p
    ensures p[..|p| - 1] in b.at && b.at[p[..|p| - 1]] in nodes && b.at[p] in nodes
    ensures NodeOK(WithoutNode(nodes, b.at[p[..|p| - 1]], p[|p| - 1], b.at[p], free), Reduced(b, p), q)
  {
    ParentOf(nodes, b, p);
    InTree(nodes, b, p);
    InTree(nodes, b, q);
    InTree(nodes, b, p[..|p| - 1]);
    NotBelow(q, p, true);
    NotBelow(q, p, false);
    hide Tree;
    if q != [] {
      assert q == q[..|q| - 1] + [q[|q| - 1]];
      assert [q[|q| - 1]] == if q[|q| - 1] then [true] else [false];
      assert q[..|q| - 1] != p;
    }
  }

  lemma RemoveNode(nodes: Nodes, b: Book, p: Path, free: Link)
    requires Tree(nodes, b) && Leaf(b, p)
    ensures p[..|p| - 1] in b.at && b.at[p[..|p| - 1]] in nodes && b.at[p] in nodes
    ensures Tree(WithoutNode(nodes, b.at[p[..|p| - 1]], p[|p| - 1], b.at[p], free), Reduced(b, p))
  {
    hide NodeOK, WithoutNode, Reduced;
    ParentOf(nodes, b, p);
    ReducedOwners(nodes, b, p);
    var r, c := WithoutNode(nodes, b.at[p[..|p| - 1]], p[|p| - 1], b.at[p], free), Reduced(b, p);
    hide Tree;
    forall q | q in c.at
      ensures NodeOK(r, c, q)
    {
      RemoveAt(nodes, b, p, free, q);
    }
    TreeFromParts(r, c);
  }

  lemma ReducedOwners(nodes: Nodes, b: Book, p: Path)
    requires Tree(nodes, b) && p in b.at && p != []
    ensures var c := Reduced(b, p);
      && [] in c.at && (forall q :: q in c.at <==> q in b.at && q != p)
      && forall a {:trigger c.of[a]} | a in c.of :: c.of[a] in c.at && c.at[c.of[a]] == a
  {
    assert NodeOK(nodes, b, p);
  }

  lemma RemovePruned(nodes: Nodes, b: Book, p: Path, free: Link)
    requires Tree(nodes, b) && Leaf(b, p) && Pruned(nodes, b, p)
    ensures p[..|p| - 1] in b.at && b.at[p[..|p| - 1]] in nodes && b.at[p] in nodes
    ensures Pruned(WithoutNode(nodes, b.at[p[..|p| - 1]], p[|p| - 1], b.at[p], free), Reduced(b, p), p[..|p| - 1])
  {
    ParentOf(nodes, b, p);
    var r, c := WithoutNode(nodes, b.at[p[..|p| - 1]], p[|p| - 1], b.at[p], free), Reduced(b, p);
    forall q | q in c.at && q != p[..|p| - 1] && c.at[q] in r
      ensures Needed(r, c, q)
    {
      InTree(nodes, b, q);
      InTree(nodes, b, p);
      assert Needed(nodes, b, q);
      NotBelow(q, p, true);
      NotBelow(q, p, false);
    }
  }

  lemma RemoveStored(nodes: Nodes, b: Book, p: Path, free: Link, q: Path)
    requires Tree(nodes, b) && Leaf(b, p)
    ensures p[..|p| - 1] in b.at && b.at[p[..|p| - 1]] in nodes && b.at[p] in nodes
    ensures Stored(WithoutNode(nodes, b.at[p[..|p| - 1]], p[|p| - 1], b.at[p], free), Reduced(b, p), q)
      == if q == p then NO_VALUE else Stored(nodes, b, q)
  {
    ParentOf(nodes, b, p);
    InTree(nodes, b, p);
    if q in b.at {
      InTree(nodes, b, q);
    }
  }

  lemma RemoveFree(nodes: Nodes, b: Book, p: Path, free: Link)
    requires Tree(nodes, b) && Leaf(b, p) && FreeList(nodes, b, free)
    ensures p[..|p| - 1] in b.at && b.at[p[..|p| - 1]] in nodes && b.at[p] in nodes
    ensures FreeList(WithoutNode(nodes, b.at[p[..|p| - 1]], p[|p| - 1], b.at[p], free), Reduced(b, p), b.at[p])
  {
    ParentOf(nodes, b, p);
    InTree(nodes, b, p);
    InTree(nodes, b, p[..|p| - 1]);
    hide Tree, NodeOK;
    var r, c := WithoutNode(nodes, b.at[p[..|p| - 1]], p[|p| - 1], b.at[p], free), Reduced(b, p);
    forall i: nat | i < |c.free|
      ensures FreeAt(r, c.free, i)
    {
      if i > 0 {
        assert FreeAt(nodes, b.free, i - 1);
        assert c.free[i] == b.free[i - 1];
      }
    }
  }

  // ----- a value more or less

  function WithValue(nodes: Nodes, node: nat, value: nat): Nodes
    requires node in nodes
  {
    nodes[node := nodes[node].(value := value)]
  }

  lemma SetValue(nodes: Nodes, b: Book, p: Path, value: nat, free: Link)
    requires Tree(nodes, b) && FreeList(nodes, b, free) && p in b.at
    ensures b.at[p] in nodes
    ensures var r := WithValue(nodes, b.at[p], value); Tree(r, b) && FreeList(r, b, free)
  {
    InTree(nodes, b, p);
    var r := WithValue(nodes, b.at[p], value);
    forall q | q in b.at
      ensures NodeOK(r, b, q)
    {
      InTree(nodes, b, q);
    }
    forall i: nat | i < |b.free|
      ensures FreeAt(r, b.free, i)
    {
      assert FreeAt(nodes, b.free, i);
    }
  }

  lemma SetStored(nodes: Nodes, b: Book, p: Path, value: nat)
    requires Tree(nodes, b) && p in b.at
    ensures b.at[p] in nodes
    ensures var r := WithValue(nodes, b.at[p], value);
      Stored(r, b, p) == value && SameBut(nodes, b, r, b, p)
  {
    InTree(nodes, b, p);
    var r := WithValue(nodes, b.at[p], value);
    forall q: Path | q != p
      ensures Stored(r, b, q) == Stored(nodes, b, q)
    {
      if q in b.at {
        InTree(nodes, b, q);
      }
    }
  }

  /** With its value the last node is needed; without it, if there are nodes below. */
  lemma SetPruned(nodes: Nodes, b: Book, p: Path, value: nat)
    requires Tree(nodes, b) && p in b.at && Pruned(nodes, b, p) && (value != NO_VALUE || !Leaf(b, p))
    ensures b.at[p] in nodes && Pruned(WithValue(nodes, b.at[p], value), b, [])
  {
    InTree(nodes, b, p);
    var r := WithValue(nodes, b.at[p], value);
    forall q | q in b.at && q != [] && b.at[q] in r
      ensures Needed(r, b, q)
    {
      InTree(nodes, b, q);
      assert q != p ==> Needed(nodes, b, q);
    }
  }

  /** The tree does not depend on other nodes, nor on the free list. */
  lemma SameTree(nodes: Nodes, b: Book, nodes': Nodes, b': Book, x: Path)
    requires Tree(nodes, b) && Pruned(nodes, b, x) && b'.at == b.at && b'.of == b.of
    requires forall a | a in b.of && a in nodes :: a in nodes' && nodes'[a] == nodes[a]
    ensures Tree(nodes', b') && Pruned(nodes', b', x) && forall a | a in b.of :: a in nodes && a in nodes'
  {
    forall p | p in b.at
      ensures NodeOK(nodes', b', p) && b.at[p] in nodes && b.at[p] in nodes' && (p == x || Needed(nodes', b', p))
    {
      InTree(nodes, b, p);
      assert p == x || Needed(nodes, b, p);
      assert nodes'[b.at[p]] == nodes[b.at[p]];
    }
  }

  lemma FreeFramed(nodes: Nodes, b: Book, nodes': Nodes, b': Book, head: Link)
    requires FreeList(nodes, b, head) && b'.free == b.free
    requires forall a | a in b.free && a in nodes :: a in nodes' && nodes'[a] == nodes[a]
    requires forall a {:trigger a in b'.of} | a in b'.of :: a in b.of || a !in b.free
    ensures FreeList(nodes', b', head)
  {
    forall i: nat | i < |b.free|
      ensures FreeAt(nodes', b.free, i) && b.free[i] !in b'.of
    {
      assert FreeAt(nodes, b.free, i);
      assert b.free[i] in b.free;
      assert nodes'[b.free[i]] == nodes[b.free[i]];
    }
  }

  lemma FreeInNodes(nodes: Nodes, b: Book, head: Link)
    requires FreeList(nodes, b, head)
    ensures forall a | a in b.free :: a in nodes
  {
    forall i: nat | i < |b.free|
      ensures b.free[i] in nodes
    {
      assert FreeAt(nodes, b.free, i);
    }
  }

  lemma Popped(nodes: Nodes, b: Book, free: nat)
    requires FreeList(nodes, b, free) && b.free != []
    ensures b.free[0] == free && free in nodes && free !in b.of && free !in b.free[1..]
    ensures FreeList(nodes, b.(free := b.free[1..]), nodes[free].right)
  {
    assert FreeAt(nodes, b.free, 0);
    var c := b.(free := b.free[1..]);
    forall i: nat | i < |c.free|
      ensures FreeAt(nodes, c.free, i)
    {
      assert FreeAt(nodes, b.free, i + 1);
    }
  }

  ghost predicate SameStored(nodes: Nodes, b: Book, nodes': Nodes, b': Book) {
    forall q: Path {:trigger Stored(nodes, b, q)} {:trigger Stored(nodes', b', q)} ::
      Stored(nodes', b', q) == Stored(nodes, b, q)
  }

  lemma SameSelf(nodes: Nodes, b: Book, p: Path)
    ensures SameStored(nodes, b, nodes, b) && SameBut(nodes, b, nodes, b, p)
  {
  }

  lemma StoredByOwners(nodes: Nodes, b: Book, nodes': Nodes, b': Book)
    requires Tree(nodes, b) && Tree(nodes', b') && b'.at == b.at && b'.of == b.of
    requires forall a | a in b.of :: a in nodes && a in nodes' && nodes'[a] == nodes[a]
    ensures SameStored(nodes, b, nodes', b')
  {
    forall q: Path
      ensures Stored(nodes', b', q) == Stored(nodes, b, q)
    {
      if q in b.at {
        InTree(nodes, b, q);
        InTree(nodes', b', q);
      }
    }
  }

  lemma AddStoredAll(nodes: Nodes, b: Book, p: Path, bit: bool, next: nat)
    requires Tree(nodes, b) && p in b.at && b.at[p] in nodes && p + [bit] !in b.at && next !in b.of
    ensures SameStored(nodes, b, WithNode(nodes, b.at[p], bit, next), Extended(b, p + [bit], next))
  {
    forall q: Path
      ensures Stored(WithNode(nodes, b.at[p], bit, next), Extended(b, p + [bit], next), q) == Stored(nodes, b, q)
    {
      AddStored(nodes, b, p, bit, next, q);
    }
  }

  lemma AddFree(nodes: Nodes, b: Book, p: Path, bit: bool, next: nat, free: Link)
    requires Tree(nodes, b) && p in b.at && FreeList(nodes, b, free) && next !in b.free
    ensures b.at[p] in nodes && FreeList(WithNode(nodes, b.at[p], bit, next), Extended(b, p + [bit], next), free)
  {
    InTree(nodes, b, p);
    FreeFramed(nodes, b, WithNode(nodes, b.at[p], bit, next), Extended(b, p + [bit], next), free);
  }

  lemma WithNodeIs(nodes: Nodes, node: nat, bit: bool, next: nat, r: Nodes)
    requires node in nodes && node != next
    requires var t := nodes[next := Node(NULL, NULL, node, NO_VALUE)]; r == t[node := WithChild(t[node], bit, next)]
    ensures r == WithNode(nodes, node, bit, next)
  {
  }

  lemma OwnersIn(nodes: Nodes, b: Book, p: Path)
    requires Tree(nodes, b) && p in b.at
    ensures b.at[p] in b.of && forall a | a in b.of :: a in nodes
  {
    InTree(nodes, b, p);
    forall a | a in b.of
      ensures a in nodes
    {
      InTree(nodes, b, b.of[a]);
    }
  }

  lemma PrunedMore(nodes: Nodes, b: Book, x: Path)
    requires Pruned(nodes, b, [])
    ensures Pruned(nodes, b, x)
  {
    forall p | p in b.at && p != x && b.at[p] in nodes
      ensures Needed(nodes, b, p)
    {
      assert p != [] ==> Needed(nodes, b, p);
    }
  }

  lemma MissingBeyond(nodes: Nodes, b: Book, key: Path, i: nat, n: nat)
    requires Tree(nodes, b) && i <= n <= |key| && (i < n ==> key[..i + 1] !in b.at)
    ensures forall m | i < m <= n :: key[..m] !in b.at
  {
    forall m | i < m <= n
      ensures key[..m] !in b.at
    {
      BeyondOut(nodes, b, key, i, m);
    }
  }

  lemma PathsDiffer(key: Path, i: nat, n: nat)
    requires i <= n <= |key|
    ensures forall m | i < m <= n :: key[..m] != key[..i]
  {
    forall m | i < m <= n
      ensures key[..m] != key[..i]
    {
      assert |key[..m]| == m;
    }
  }

  lemma SameStoredTrans(nodes: Nodes, b: Book, nodes': Nodes, b': Book, nodes'': Nodes, b'': Book)
    requires SameStored(nodes, b, nodes', b') && SameStored(nodes', b', nodes'', b'')
    ensures SameStored(nodes, b, nodes'', b'')
  {
    forall q: Path
      ensures Stored(nodes'', b'', q) == Stored(nodes, b, q)
    {
      assert Stored(nodes', b', q) == Stored(nodes, b, q);
    }
  }

  lemma ButStored(nodes: Nodes, b: Book, nodes': Nodes, b': Book, nodes'': Nodes, b'': Book, p: Path)
    requires SameStored(nodes, b, nodes', b') && SameBut(nodes', b', nodes'', b'', p)
    ensures SameBut(nodes, b, nodes'', b'', p)
  {
    forall q: Path | q != p
      ensures Stored(nodes'', b'', q) == Stored(nodes, b, q)
    {
      assert Stored(nodes', b', q) == Stored(nodes, b, q);
    }
  }

  lemma StoredThere(nodes: Nodes, b: Book, nodes': Nodes, b': Book, p: Path)
    requires SameStored(nodes, b, nodes', b')
    ensures Stored(nodes', b', p) == Stored(nodes, b, p)
  {
  }

  lemma NotStored(nodes: Nodes, b: Book, p: Path)
    requires p !in b.at
    ensures Stored(nodes, b, p) == NO_VALUE
  {
  }

  /** A node has no links exactly when it is a leaf. */
  lemma Links(nodes: Nodes, b: Book, p: Path)
    requires Tree(nodes, b) && p in b.at && p != []
    ensures b.at[p] in nodes
    ensures Leaf(b, p) <==> nodes[b.at[p]].right == NULL && nodes[b.at[p]].left == NULL
  {
    InTree(nodes, b, p);
  }

  lemma LeafHasValue(nodes: Nodes, b: Book, p: Path)
    requires Tree(nodes, b) && Pruned(nodes, b, []) && Leaf(b, p)
    ensures Stored(nodes, b, p) != NO_VALUE
  {
    InTree(nodes, b, p);
    assert Needed(nodes, b, p);
  }

  lemma WithoutNodeIs(nodes: Nodes, parent: nat, bit: bool, node: nat, free: Link, r: Nodes)
    requires parent in nodes && node in nodes && parent != node
    requires var t := nodes[parent := WithChild(nodes[parent], bit, NULL)]; r == t[node := t[node].(right := free)]
    ensures r == WithoutNode(nodes, parent, bit, node, free)
  {
  }

  lemma RootKept(nodes: Nodes, b: Book, p: Path, root: nat)
    requires Tree(nodes, b) && p in b.at && p != [] && b.at[[]] == root
    ensures [] in Reduced(b, p).at && Reduced(b, p).at[[]] == root
  {
  }

  /** The prefix p is not stored any more; all others are as they were. */
  ghost predicate StoredLess(nodes: Nodes, b: Book, p: Path, nodes': Nodes, b': Book) {
    forall q: Path {:trigger Stored(nodes, b, q)} {:trigger Stored(nodes', b', q)} ::
      Stored(nodes', b', q) == if q == p then NO_VALUE else Stored(nodes, b, q)
  }

  lemma RemoveStoredAll(nodes: Nodes, b: Book, p: Path, free: Link)
    requires Tree(nodes, b) && Leaf(b, p)
    ensures p[..|p| - 1] in b.at && b.at[p[..|p| - 1]] in nodes && b.at[p] in nodes
    ensures StoredLess(nodes, b, p, WithoutNode(nodes, b.at[p[..|p| - 1]], p[|p| - 1], b.at[p], free), Reduced(b, p))
  {
    ParentOf(nodes, b, p);
    forall q: Path
      ensures Stored(WithoutNode(nodes, b.at[p[..|p| - 1]], p[|p| - 1], b.at[p], free), Reduced(b, p), q)
        == if q == p then NO_VALUE else Stored(nodes, b, q)
    {
      RemoveStored(nodes, b, p, free, q);
    }
  }

  /** One leaf less on the way up changes what is stored at the leaf asked for only. */
  lemma Removes(nodes0: Nodes, b0: Book, nodes: Nodes, b: Book, nodes': Nodes, b': Book, key: Path, i: nat, n: nat)
    requires i <= n <= |key| && SameBut(nodes0, b0, nodes, b, key[..n])
    requires i < n ==> Stored(nodes, b, key[..i]) == NO_VALUE && Stored(nodes, b, key[..n]) == NO_VALUE
    requires StoredLess(nodes, b, key[..i], nodes', b')
    ensures SameBut(nodes0, b0, nodes', b', key[..n]) && Stored(nodes', b', key[..n]) == NO_VALUE
  {
    forall q: Path | q != key[..n]
      ensures Stored(nodes', b', q) == Stored(nodes0, b0, q)
    {
      assert Stored(nodes, b, q) == Stored(nodes0, b0, q);
    }
  }

  lemma LinksTell(nodes: Nodes, b: Book, p: Path)
    requires Tree(nodes, b) && p in b.at
    ensures b.at[p] in nodes
    ensures nodes[b.at[p]].right == NULL && nodes[b.at[p]].left == NULL && p != [] ==> Leaf(b, p)
    ensures p != [] && (nodes[b.at[p]].right != NULL || nodes[b.at[p]].left != NULL || Stored(nodes, b, p) != NO_VALUE)
      ==> Needed(nodes, b, p)
    ensures nodes[b.at[p]].parent == NULL <==> p == []
    ensures Stored(nodes, b, p) == nodes[b.at[p]].value
  {
    InTree(nodes, b, p);
  }

  lemma PrunedAll(nodes: Nodes, b: Book, x: Path)
    requires Pruned(nodes, b, x) && x in b.at && b.at[x] in nodes && (x == [] || Needed(nodes, b, x))
    ensures Pruned(nodes, b, [])
  {
    forall p | p in b.at && p != [] && b.at[p] in nodes
      ensures Needed(nodes, b, p)
    {
      assert p != x ==> Needed(nodes, b, p);
    }
  }

  datatype Deletion = Done | Missing | NoParent

  class RadixTree {
    var nodes: Nodes
    var root: nat
    var free: Link
    var start: nat
    ghost var b: Book

    /** All but that the node at x may be needed for nothing. */
    ghost predicate Grown(x: Path)
      reads this
    {
      Tree(nodes, b) && Pruned(nodes, b, x) && FreeList(nodes, b, free) && b.at[[]] == root
      && forall a {:trigger nodes[a]} | a in nodes :: a < start
    }

    /** The root has no children. */
    predicate Alone()
      reads this
    {
      root in nodes && nodes[root].right == NULL && nodes[root].left == NULL
    }

    ghost predicate Valid()
      reads this
    {
      Grown([])
    }

    constructor ()
      ensures Valid() && forall p: Path :: Stored(nodes, b, p) == NO_VALUE
    {
      nodes := map[0 := Node(NULL, NULL, NULL, NO_VALUE)];
      root, free, start := 0, NULL, 1;
      b := Book(map[[] := 0], map[0 := []], []);
    }

    /** ngx_radix_alloc: a node of the free list, or the next one of the page. */
    method Alloc(ghost x: Path) returns (p: nat)
      requires Grown(x)
      modifies `nodes, `free, `start, `b
      ensures Grown(x) && p in nodes && p !in b.of && p !in b.free && b.at == old(b).at && b.of == old(b).of
      ensures forall a | a in b.of :: a in old(nodes) && a in nodes && nodes[a] == old(nodes)[a]
    {
      if free != NULL {
        p := free;
        assert FreeAt(nodes, b.free, 0);
        free := nodes[free].right;
        Popped(nodes, b, p);
        SameTree(nodes, b, nodes, b.(free := b.free[1..]), x);
        b := b.(free := b.free[1..]);
      } else {
        p := start;
        ghost var r := nodes[p := Node(NULL, NULL, NULL, NO_VALUE)];
        SameTree(nodes, b, r, b, x);
        FreeFramed(nodes, b, r, b, free);
        FreeInNodes(nodes, b, free);
        start := start + 1;
        nodes := nodes[p := Node(NULL, NULL, NULL, NO_VALUE)];
      }
    }

    /** ngx_radix32tree_find. */
    method Lookup(key: Key) returns (value: nat)
      requires Valid()
      ensures value == Longest(nodes, b, key, BITS)
    {
      hide Tree, Pruned, FreeList, Stored;
      RootIn(nodes, b);
      value := NO_VALUE;
      var node: Link := root;
      var i := 0;
      assert key[..0] == [];
      while node != NULL
        invariant 0 <= i <= BITS + 1
        invariant node == (if i <= BITS then AtOrNull(b, key[..i]) else NULL)
        invariant value == if i > 0 then Longest(nodes, b, key, i - 1) else NO_VALUE
        invariant i > 0 ==> key[..i - 1] in b.at
        decreases BITS + 1 - i
      {
        StepDown(nodes, b, key, i);
        if nodes[node].value != NO_VALUE {
          value := nodes[node].value;
        }
        node := Child(nodes[node], i < BITS && key[i]);
        i := i + 1;
      }
      LongestSkips(nodes, b, key, i - 1, BITS);
    }

    /** A node for one more bit of the key, below the last one. */
    method Grow(ghost p: Path, node: nat, bit: bool) returns (next: nat)
      requires Grown(p) && p in b.at && b.at[p] == node && |p| < BITS && p + [bit] !in b.at
      modifies `nodes, `free, `start, `b
      ensures Grown(p + [bit]) && p + [bit] in b.at && b.at[p + [bit]] == next
      ensures b.at.Keys == old(b).at.Keys + {p + [bit]}
      ensures SameStored(old(nodes), old(b), nodes, b)
    {
      hide Tree, Pruned, FreeList, Stored, NodeOK, WithNode;
      InTree(nodes, b, p);
      OwnersIn(nodes, b, p);
      next := Alloc(p);
      ghost var r, c, x := nodes, b, p + [bit];
      StoredByOwners(old(nodes), old(b), r, c);
      AddNode(r, c, p, bit, next);
      AddPruned(r, c, p, bit, next);
      AddFree(r, c, p, bit, next, free);
      AddStoredAll(r, c, p, bit, next);
      nodes := nodes[next := Node(NULL, NULL, node, NO_VALUE)];
      nodes := nodes[node := WithChild(nodes[node], bit, next)];
      WithNodeIs(r, node, bit, next, nodes);
      b := Extended(b, x, next);
    }

    /** Down the bits of the key as far as there are nodes, n bits at most. */
    method Descend(key: Key, n: nat) returns (node: nat, i: nat)
      requires Tree(nodes, b) && [] in b.at && b.at[[]] == root && n <= BITS
      ensures i <= n && key[..i] in b.at && node == b.at[key[..i]]
      ensures i < n ==> key[..i + 1] !in b.at
    {
      hide Tree, Stored, NodeOK;
      node, i := root, 0;
      assert key[..0] == [];
      while i < n
        invariant i <= n && key[..i] in b.at && node == b.at[key[..i]]
      {
        StepDown(nodes, b, key, i);
        var next := Child(nodes[node], key[i]);
        if next == NULL {
          break;
        }
        i := i + 1;
        node := next;
      }
    }

    /** ngx_radix32tree_insert; the mask has n leading ones. */
    method Insert(key: Key, n: nat, value: nat) returns (ok: bool)
      requires Valid() && n <= BITS && value != NO_VALUE
      modifies this
      ensures Valid() && (ok <==> Stored(old(nodes), old(b), key[..n]) == NO_VALUE)
      ensures SameBut(old(nodes), old(b), nodes, b, key[..n])
      ensures Stored(nodes, b, key[..n]) == if ok then value else Stored(old(nodes), old(b), key[..n])
    {
      hide Tree, Pruned, FreeList, Stored, NodeOK, SameBut, SameStored;
      RootIn(nodes, b);
      SameSelf(nodes, b, key[..n]);
      var node, i := Descend(key, n);
      StepDown(nodes, b, key, i);
      if i == n {
        if nodes[node].value != NO_VALUE {
          return false;
        }
      }
      PrunedMore(nodes, b, key[..i]);
      MissingBeyond(nodes, b, key, i, n);
      if i < n {
        NotStored(nodes, b, key[..n]);
      }
      while i < n
        invariant i <= n && Grown(key[..i]) && key[..i] in b.at && node == b.at[key[..i]]
        invariant forall m | i < m <= n :: key[..m] !in b.at
        invariant SameStored(old(nodes), old(b), nodes, b)
      {
        assert key[..i + 1] == key[..i] + [key[i]];
        ghost var r, c := nodes, b;
        node := Grow(key[..i], node, key[i]);
        SameStoredTrans(old(nodes), old(b), r, c, nodes, b);
        PathsDiffer(key, i + 1, n);
        i := i + 1;
      }
      SetValue(nodes, b, key[..n], value, free);
      SetStored(nodes, b, key[..n], value);
      SetPruned(nodes, b, key[..n], value);
      ButStored(old(nodes), old(b), nodes, b, WithValue(nodes, node, value), b, key[..n]);
      StoredThere(old(nodes), old(b), nodes, b, key[..n]);
      nodes := nodes[node := nodes[node].(value := value)];
      ok := true;
    }

    /** The loop that takes a leaf out and goes up while the parent is needed for nothing. */
    method Prune(key: Key, n: nat, leaf: nat)
      requires Valid() && 0 < n <= BITS && Leaf(b, key[..n]) && leaf == b.at[key[..n]]
      modifies `nodes, `free, `b
      ensures Valid() && Stored(nodes, b, key[..n]) == NO_VALUE && SameBut(old(nodes), old(b), nodes, b, key[..n])
    {
      hide Tree, Pruned, FreeList, Stored, NodeOK, SameBut, SameStored;
      var node := leaf;
      ghost var i := n;
      PrunedMore(nodes, b, key[..n]);
      SameSelf(nodes, b, key[..n]);
      while true
        invariant 0 < i <= n && Grown(key[..i]) && Leaf(b, key[..i]) && node == b.at[key[..i]]
        invariant SameBut(old(nodes), old(b), nodes, b, key[..n])
        invariant i < n ==> Stored(nodes, b, key[..n]) == NO_VALUE && Stored(nodes, b, key[..i]) == NO_VALUE
        decreases i
      {
        ghost var r, c := nodes, b;
        node := TakeLeaf(key[..i], node);
        assert key[..i][..i - 1] == key[..i - 1];
        Removes(old(nodes), old(b), r, c, nodes, b, key, i, n);
        i := i - 1;
        LinksTell(nodes, b, key[..i]);
        if nodes[node].right != NULL || nodes[node].left != NULL {
          break;
        }
        if nodes[node].value != NO_VALUE {
          break;
        }
        if nodes[node].parent == NULL {
          break;
        }
      }
      PrunedAll(nodes, b, key[..i]);
    }

    /** A leaf is taken from its parent and put in front of the free list. */
    method TakeLeaf(ghost p: Path, node: nat) returns (parent: nat)
      requires Grown(p) && Leaf(b, p) && node == b.at[p]
      modifies `nodes, `free, `b
      ensures Grown(p[..|p| - 1]) && p[..|p| - 1] in b.at && parent == b.at[p[..|p| - 1]]
      ensures StoredLess(old(nodes), old(b), p, nodes, b)
    {
      hide Tree, Pruned, FreeList, Stored, NodeOK, WithoutNode, StoredLess;
      ParentOf(nodes, b, p);
      parent := nodes[node].parent;
      RemoveNode(nodes, b, p, free);
      RemovePruned(nodes, b, p, free);
      RemoveFree(nodes, b, p, free);
      RemoveStoredAll(nodes, b, p, free);
      ReducedOwners(nodes, b, p);
      RootKept(nodes, b, p, root);
      ghost var r := nodes;
      if nodes[parent].right == node {
        nodes := nodes[parent := nodes[parent].(right := NULL)];
      } else {
        nodes := nodes[parent := nodes[parent].(left := NULL)];
      }
      nodes := nodes[node := nodes[node].(right := free)];
      WithoutNodeIs(r, parent, p[|p| - 1], node, free, nodes);
      free := node;
      b := Reduced(b, p);
    }

    /** ngx_radix32tree_delete. With an empty mask and no node but the root it reads the parent of the root, which is
        NULL: the result is NoParent, and what comes of it is not modelled. */
    method Delete(key: Key, n: nat) returns (r: Deletion)
      requires Valid() && n <= BITS
      modifies this
      ensures Valid() && (r == NoParent <==> n == 0 && old(Alone()))
      ensures r == NoParent ==> nodes == old(nodes) && b == old(b) && free == old(free)
      ensures r != NoParent ==> (r == Done <==> Stored(old(nodes), old(b), key[..n]) != NO_VALUE)
      ensures r != NoParent ==>
        Stored(nodes, b, key[..n]) == NO_VALUE && SameBut(old(nodes), old(b), nodes, b, key[..n])
    {
      hide Tree, Pruned, FreeList, Stored, NodeOK, SameBut, SameStored;
      RootIn(nodes, b);
      SameSelf(nodes, b, key[..n]);
      var node, i := Descend(key, n);
      MissingBeyond(nodes, b, key, i, n);
      if i < n {
        NotStored(nodes, b, key[..n]);
        return Missing;
      }
      StepDown(nodes, b, key, n);
      LinksTell(nodes, b, key[..n]);
      if n > 0 {
        Links(nodes, b, key[..n]);
      }
      if nodes[node].right != NULL || nodes[node].left != NULL {
        if nodes[node].value != NO_VALUE {
          SetValue(nodes, b, key[..n], NO_VALUE, free);
          SetStored(nodes, b, key[..n], NO_VALUE);
          PrunedMore(nodes, b, key[..n]);
          SetPruned(nodes, b, key[..n], NO_VALUE);
          nodes := nodes[node := nodes[node].(value := NO_VALUE)];
          return Done;
        }
        return Missing;
      }
      if n == 0 {
        return NoParent;
      }
      LeafHasValue(nodes, b, key[..n]);
      Prune(key, n, node);
      r := Done;
    }
  }
}
