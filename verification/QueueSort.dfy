/** The intrusive ring of ngx_queue.h, its middle element and its stable insertion sort, done by relinking. */
module QueueSort {

  /** A link is its own element: what surrounds it in the C structure is only seen by the comparison. */
  class Link {
    var prev: Link
    var next: Link

    constructor ()
      ensures prev == this && next == this
    {
      prev, next := this, this;
    }
  }

  type Cmp = (Link, Link) -> int

  /** The elements of the ring in order, with its head before the first and after the last. */
  function At(h: Link, s: seq<Link>, i: int): Link {
    if 1 <= i <= |s| then s[i - 1] else h
  }

  predicate Distinct(s: seq<Link>) {
    forall i, j | 0 <= i < j < |s| :: s[i] != s[j]
  }

  ghost predicate LinkAt(h: Link, s: seq<Link>, i: int)
    reads h, s
  {
    At(h, s, i).next == At(h, s, i + 1) && At(h, s, i + 1).prev == At(h, s, i)
  }

  /** A well-formed doubly linked ring: `h` is the sentinel and `s` the elements after it, in order. */
  ghost predicate Ring(h: Link, s: seq<Link>)
    reads h, s
  {
    Distinct(s) && h !in s && forall i {:trigger LinkAt(h, s, i)} | 0 <= i <= |s| :: LinkAt(h, s, i)
  }

  function Without(s: seq<Link>, k: nat): seq<Link>
    requires k < |s|
  {
    s[..k] + s[k + 1..]
  }

  function Put(s: seq<Link>, k: nat, q: Link): seq<Link>
    requires k <= |s|
  {
    s[..k] + [q] + s[k..]
  }

  // The two link primitives.

  method Remove(h: Link, q: Link, ghost s: seq<Link>, ghost k: nat)
    requires Ring(h, s) && k < |s| && s[k] == q
    modifies h, s
    ensures Ring(h, Without(s, k))
  {
    assert LinkAt(h, s, k) && LinkAt(h, s, k + 1);
    ghost var r := Without(s, k);
    q.next.prev := q.prev;
    q.prev.next := q.next;
    forall i | 0 <= i <= |r|
      ensures LinkAt(h, r, i)
    {
      var a := if i <= k then i else i + 1;
      assert old(LinkAt(h, s, a));
    }
  }

  method InsertAfter(h: Link, p: Link, q: Link, ghost s: seq<Link>, ghost k: nat)
    requires Ring(h, s) && k <= |s| && p == At(h, s, k) && q !in s && q != h
    modifies h, s, q
    ensures Ring(h, Put(s, k, q))
  {
    assert LinkAt(h, s, k);
    ghost var r := Put(s, k, q);
    q.next := p.next;
    q.next.prev := q;
    q.prev := p;
    p.next := q;
    forall i | 0 <= i <= |r|
      ensures LinkAt(h, r, i)
    {
      var a := if i <= k then i else i - 1;
      assert old(LinkAt(h, s, a));
    }
  }

  /** Element of index n/2: the middle one of an odd number, the first of the second half of an even number. */
  method Middle(h: Link, ghost s: seq<Link>) returns (middle: Link)
    requires Ring(h, s)
    ensures s == [] ==> middle == h
    ensures s != [] ==> middle == s[|s| / 2]
  {
    middle := h.next;
    assert LinkAt(h, s, 0) && LinkAt(h, s, |s|);
    if middle == h.prev { return; }
    var next := h.next;
    ghost var a := 0;
    while true
      invariant 2 * a < |s| - 1 && middle == s[a] && next == s[2 * a]
      decreases |s| - a
    {
      assert LinkAt(h, s, a + 1) && LinkAt(h, s, 2 * a + 1);
      middle := middle.next;
      next := next.next;
      if next == h.prev { return; }
      assert LinkAt(h, s, 2 * a + 2);
      next := next.next;
      if next == h.prev { return; }
      a := a + 1;
    }
  }

  // What the sort computes: each element, from the second on, goes after the last earlier one not greater than it.

  function Place(s: seq<Link>, q: Link, cmp: Cmp): seq<Link> {
    if s == [] then [q]
    else if cmp(s[|s| - 1], q) <= 0 then s + [q]
    else Place(s[..|s| - 1], q, cmp) + [s[|s| - 1]]
  }

  function Sorting(s: seq<Link>, cmp: Cmp): seq<Link> {
    if s == [] then [] else Place(Sorting(s[..|s| - 1], cmp), s[|s| - 1], cmp)
  }

  lemma {:induction false} PlacePermutes(s: seq<Link>, q: Link, cmp: Cmp)
    ensures multiset(Place(s, q, cmp)) == multiset(s) + multiset{q}
  {
    if s != [] && cmp(s[|s| - 1], q) > 0 {
      assert s == s[..|s| - 1] + [s[|s| - 1]];
      PlacePermutes(s[..|s| - 1], q, cmp);
    }
  }

  /** Nothing is lost or added. */
  lemma {:induction false} SortingPermutes(s: seq<Link>, cmp: Cmp)
    ensures multiset(Sorting(s, cmp)) == multiset(s)
  {
    if s != [] {
      assert s == s[..|s| - 1] + [s[|s| - 1]];
      SortingPermutes(s[..|s| - 1], cmp);
      PlacePermutes(Sorting(s[..|s| - 1], cmp), s[|s| - 1], cmp);
    }
  }

  lemma PlaceBack(s: seq<Link>, q: Link, cmp: Cmp, j: nat)
    requires 1 <= j <= |s|
    ensures cmp(s[j - 1], q) <= 0 ==> Place(s[..j], q, cmp) == s[..j] + [q]
    ensures cmp(s[j - 1], q) > 0 ==> Place(s[..j], q, cmp) == Place(s[..j - 1], q, cmp) + [s[j - 1]]
  {
    assert s[..j][..j - 1] == s[..j - 1];
  }

  lemma Regroup(r: seq<Link>, s: seq<Link>, j: nat, i: nat)
    requires 1 <= j <= i <= |s|
    ensures r + [s[j - 1]] + s[j..i] == r + s[j - 1..i]
  {
  }

  /** The place among the first i elements is the one among the first j, with the others behind. */
  predicate Before(s: seq<Link>, q: Link, cmp: Cmp, i: nat, j: nat) {
    j <= i <= |s| && Place(s[..i], q, cmp) == Place(s[..j], q, cmp) + s[j..i]
  }

  /** Which is not behind the last one of them if that is greater. */
  lemma FurtherBack(s: seq<Link>, q: Link, cmp: Cmp, i: nat, j: nat)
    requires 1 <= j && Before(s, q, cmp, i, j) && cmp(s[j - 1], q) > 0
    ensures Before(s, q, cmp, i, j - 1)
  {
    hide Place;
    PlaceBack(s, q, cmp, j);
    Regroup(Place(s[..j - 1], q, cmp), s, j, i);
  }

  lemma HereItIs(s: seq<Link>, q: Link, cmp: Cmp, i: nat, j: nat)
    requires Before(s, q, cmp, i, j) && (1 <= j ==> cmp(s[j - 1], q) <= 0)
    ensures Place(s[..i], q, cmp) == s[..j] + [q] + s[j..i]
  {
    hide Place;
    if j == 0 {
      PlaceFirst(s[..0], q, cmp);
    } else {
      PlaceBack(s, q, cmp, j);
    }
  }

  /** The inner loop: back from `prev`, over the elements greater than `q`. */
  method FindPlace(h: Link, prev: Link, q: Link, cmp: Cmp, ghost s: seq<Link>, ghost i: nat)
    returns (p: Link, ghost j: nat)
    requires Ring(h, s) && 1 <= i <= |s| && prev == s[i - 1]
    ensures j <= i && p == At(h, s, j)
    ensures Place(s[..i], q, cmp) == s[..j] + [q] + s[j..i]
  {
    p, j := prev, i;
    assert Before(s, q, cmp, i, i);
    hide Place, Before, Distinct;
    while true
      invariant 1 <= j <= i && p == s[j - 1] && Before(s, q, cmp, i, j)
      decreases j
    {
      if cmp(p, q) <= 0 {
        HereItIs(s, q, cmp, i, j);
        return;
      }
      FurtherBack(s, q, cmp, i, j);
      assert LinkAt(h, s, j - 1);
      p := p.prev;
      j := j - 1;
      if p == h {
        HereItIs(s, q, cmp, i, j);
        return;
      }
    }
  }

  lemma PlaceFirst(s: seq<Link>, q: Link, cmp: Cmp)
    requires s == []
    ensures Place(s, q, cmp) == s + [q]
  {
  }

  method Sort(h: Link, cmp: Cmp, ghost s: seq<Link>)
    requires Ring(h, s)
    modifies h, s
    ensures Ring(h, Sorting(s, cmp))
  {
    var q := h.next;
    assert LinkAt(h, s, 0) && LinkAt(h, s, |s|);
    if q == h.prev {
      SortingOne(s, cmp);
      return;
    }
    q := q.next;
    assert LinkAt(h, s, 1);
    ghost var i := 1;
    SortingOne(s[..1], cmp);
    assert s[..1] + s[1..] == s;
    while q != h
      invariant 1 <= i <= |s| && q == At(h, s, i + 1)
      invariant SortedUpTo(h, s, i, cmp)
      decreases |s| - i
    {
      q := SortStep(h, q, cmp, s, i);
      i := i + 1;
    }
    assert s[..i] == s;
    assert Sorting(s, cmp) + s[i..] == Sorting(s, cmp);
  }

  /** The first `i` elements are sorted, the others still in their old order. */
  ghost predicate SortedUpTo(h: Link, s: seq<Link>, i: nat, cmp: Cmp)
    requires i <= |s|
    reads h, s, Sorting(s[..i], cmp)
  {
    Ring(h, Sorting(s[..i], cmp) + s[i..])
  }

  method SortStep(h: Link, q: Link, cmp: Cmp, ghost s: seq<Link>, ghost i: nat) returns (next: Link)
    requires 1 <= i < |s| && Distinct(s) && h !in s
    requires q == s[i] && SortedUpTo(h, s, i, cmp)
    modifies h, s
    ensures next == At(h, s, i + 2) && SortedUpTo(h, s, i + 1, cmp)
  {
    hide Sorting, Place, Put;
    ghost var sorted := Sorting(s[..i], cmp);
    ghost var ring := sorted + s[i..];
    SameElements(s, i, cmp);
    RingWithin(s, sorted, i);
    assert forall k | 0 <= k < |ring| :: ring[k] in s;
    assert LinkAt(h, ring, i) && LinkAt(h, ring, i + 1);
    var prev := q.prev;
    next := q.next;
    Remove(h, q, ring, i);
    ring := sorted + s[i + 1..];
    assert ring == Without(sorted + s[i..], i);
    assert ring[..i] == sorted;
    ghost var j;
    prev, j := FindPlace(h, prev, q, cmp, ring, i);
    assert ring[j..i] == sorted[j..] && ring[..j] == sorted[..j];
    InsertAfter(h, prev, q, ring, j);
    PlaceNext(s, sorted, i, j, cmp);
  }

  lemma PlaceNext(s: seq<Link>, sorted: seq<Link>, i: nat, j: nat, cmp: Cmp)
    requires i < |s| && sorted == Sorting(s[..i], cmp) && j <= |sorted|
    requires Place(sorted, s[i], cmp) == sorted[..j] + [s[i]] + sorted[j..]
    ensures Put(sorted + s[i + 1..], j, s[i]) == Sorting(s[..i + 1], cmp) + s[i + 1..]
  {
    hide Place;
    assert s[..i + 1][..i] == s[..i];
    assert Sorting(s[..i + 1], cmp) == Place(sorted, s[i], cmp);
    PutBefore(sorted, s[i + 1..], j, s[i]);
  }

  lemma PutBefore(s: seq<Link>, r: seq<Link>, j: nat, q: Link)
    requires j <= |s|
    ensures Put(s + r, j, q) == s[..j] + [q] + s[j..] + r
  {
  }

  lemma SortingOne(s: seq<Link>, cmp: Cmp)
    requires |s| <= 1
    ensures Sorting(s, cmp) == s
  {
  }

  lemma RingWithin(s: seq<Link>, sorted: seq<Link>, i: nat)
    requires i <= |s| && forall l :: l in sorted <==> l in s[..i]
    ensures forall l | l in sorted + s[i..] :: l in s
  {
  }

  lemma SameElements(s: seq<Link>, i: nat, cmp: Cmp)
    requires i <= |s|
    ensures |Sorting(s[..i], cmp)| == i
    ensures forall l :: l in Sorting(s[..i], cmp) <==> l in s[..i]
  {
    var r := Sorting(s[..i], cmp);
    SortingPermutes(s[..i], cmp);
    assert |r| == |multiset(r)| == |multiset(s[..i])| == i;
    forall l
      ensures l in r <==> l in s[..i]
    {
      assert l in r <==> l in multiset(r);
    }
  }

  // What the sort promises, for a comparison that orders the elements totally, ties allowed.

  ghost predicate Preorder(d: set<Link>, cmp: Cmp) {
    && (forall a, b | a in d && b in d :: cmp(a, b) <= 0 || cmp(b, a) <= 0)
    && (forall a, b, c | a in d && b in d && c in d && cmp(a, b) <= 0 && cmp(b, c) <= 0 :: cmp(a, c) <= 0)
  }

  predicate Within(s: seq<Link>, d: set<Link>) {
    forall l | l in s :: l in d
  }

  ghost predicate Sorted(s: seq<Link>, cmp: Cmp) {
    forall i, j | 0 <= i < j < |s| :: cmp(s[i], s[j]) <= 0
  }

  /** The elements that tie with `x`, in order. */
  function Ties(s: seq<Link>, x: Link, cmp: Cmp): (r: seq<Link>) {
    if s == [] then []
    else
      var l := s[|s| - 1];
      Ties(s[..|s| - 1], x, cmp) + if cmp(l, x) <= 0 && cmp(x, l) <= 0 then [l] else []
  }

  lemma {:induction false} PlaceMembers(s: seq<Link>, q: Link, cmp: Cmp, d: set<Link>)
    requires Within(s, d) && q in d
    ensures Within(Place(s, q, cmp), d)
  {
    if s != [] {
      assert Within(s[..|s| - 1], d) && s[|s| - 1] in s;
      PlaceMembers(s[..|s| - 1], q, cmp, d);
    }
  }

  lemma {:induction false} SortingMembers(s: seq<Link>, cmp: Cmp, d: set<Link>)
    requires Within(s, d)
    ensures Within(Sorting(s, cmp), d)
  {
    if s != [] {
      assert Within(s[..|s| - 1], d) && s[|s| - 1] in s;
      SortingMembers(s[..|s| - 1], cmp, d);
      PlaceMembers(Sorting(s[..|s| - 1], cmp), s[|s| - 1], cmp, d);
    }
  }

  lemma SortedAppend(s: seq<Link>, l: Link, cmp: Cmp)
    requires Sorted(s, cmp) && forall a | a in s :: cmp(a, l) <= 0
    ensures Sorted(s + [l], cmp)
  {
  }

  lemma {:induction false} PlaceSorted(s: seq<Link>, q: Link, cmp: Cmp, d: set<Link>)
    requires Preorder(d, cmp) && Within(s, d) && q in d && Sorted(s, cmp)
    ensures Sorted(Place(s, q, cmp), cmp)
  {
    if s != [] {
      hide Sorted, Preorder, Within;
      assert s == s[..|s| - 1] + [s[|s| - 1]];
      PlaceSortedAfter(s[..|s| - 1], s[|s| - 1], q, cmp, d);
      PlaceSorted(s[..|s| - 1], q, cmp, d);
      if cmp(s[|s| - 1], q) <= 0 {
        SortedAppend(s, q, cmp);
      } else {
        SortedAppend(Place(s[..|s| - 1], q, cmp), s[|s| - 1], cmp);
      }
    }
  }

  lemma PlaceSortedAfter(s: seq<Link>, l: Link, q: Link, cmp: Cmp, d: set<Link>)
    requires Preorder(d, cmp) && Within(s + [l], d) && q in d && Sorted(s + [l], cmp)
    ensures Sorted(s, cmp) && Within(s, d)
    ensures cmp(l, q) <= 0 ==> forall a | a in s + [l] :: cmp(a, q) <= 0
    ensures cmp(l, q) > 0 ==> forall a | a in Place(s, q, cmp) :: cmp(a, l) <= 0
  {
    hide Place;
    SortedFront(s, l, cmp, d);
    assert (s + [l])[|s|] == l;
    var e := set a | a in d && cmp(a, l) <= 0;
    forall a | a in s
      ensures a in e
    {
      var i :| 0 <= i < |s| && s[i] == a;
      assert (s + [l])[i] == a;
    }
    if cmp(l, q) > 0 {
      PlaceMembers(s, q, cmp, e);
    }
  }

  /** The result is in order. */
  lemma {:induction false} SortingSorted(s: seq<Link>, cmp: Cmp, d: set<Link>)
    requires Preorder(d, cmp) && Within(s, d)
    ensures Sorted(Sorting(s, cmp), cmp)
  {
    hide Preorder, Place;
    if s != [] {
      assert Within(s[..|s| - 1], d) && s[|s| - 1] in s;
      SortingSorted(s[..|s| - 1], cmp, d);
      SortingMembers(s[..|s| - 1], cmp, d);
      PlaceSorted(Sorting(s[..|s| - 1], cmp), s[|s| - 1], cmp, d);
    }
  }

  lemma {:induction false} PlaceTies(s: seq<Link>, q: Link, x: Link, cmp: Cmp, d: set<Link>)
    requires Preorder(d, cmp) && Within(s, d) && q in d && x in d
    ensures Ties(Place(s, q, cmp), x, cmp) == Ties(s + [q], x, cmp)
  {
    assert (s + [q])[..|s|] == s;
    if s != [] {
      var front, last := s[..|s| - 1], s[|s| - 1];
      assert last in s;
      if cmp(last, q) > 0 {
        var r := Place(front, q, cmp);
        assert (r + [last])[..|r|] == r;
        PlaceTies(front, q, x, cmp, d);
        assert (front + [q])[..|front|] == front;
      }
    }
  }

  /** The sort is stable: elements that tie keep their order. */
  lemma {:induction false} SortingStable(s: seq<Link>, x: Link, cmp: Cmp, d: set<Link>)
    requires Preorder(d, cmp) && Within(s, d) && x in d
    ensures Ties(Sorting(s, cmp), x, cmp) == Ties(s, x, cmp)
  {
    if s != [] {
      var front, last := s[..|s| - 1], s[|s| - 1];
      assert last in s;
      var r := Sorting(front, cmp);
      SortingMembers(front, cmp, d);
      SortingStable(front, x, cmp, d);
      PlaceTies(r, last, x, cmp, d);
      assert (r + [last])[..|r|] == r;
    }
  }

  lemma TiesAppend(s: seq<Link>, l: Link, x: Link, cmp: Cmp)
    ensures Ties(s + [l], x, cmp) == Ties(s, x, cmp) + if cmp(l, x) <= 0 && cmp(x, l) <= 0 then [l] else []
  {
    assert (s + [l])[..|s|] == s;
  }

  lemma SameLast(r: seq<Link>, a: Link, s: seq<Link>, b: Link, cmp: Cmp, d: set<Link>)
    requires Preorder(d, cmp) && Within(r + [a], d) && Within(s + [b], d)
    requires multiset(r + [a]) == multiset(s + [b]) && Sorted(r + [a], cmp) && Sorted(s + [b], cmp)
    requires Ties(r + [a], a, cmp) == Ties(s + [b], a, cmp)
    ensures a == b
  {
    hide Ties;
    var ra, sb := r + [a], s + [b];
    assert ra[|r|] == a && sb[|s|] == b;
    assert a in multiset(sb) && b in multiset(ra);
    assert a in sb && b in ra && a in d && b in d;
    var i :| 0 <= i < |ra| && ra[i] == b;
    var j :| 0 <= j < |sb| && sb[j] == a;
    assert cmp(b, a) <= 0 && cmp(a, b) <= 0;
    TiesAppend(r, a, a, cmp);
    TiesAppend(s, b, a, cmp);
    var t := Ties(ra, a, cmp);
    assert t[|t| - 1] == a && t[|t| - 1] == b;
  }

  lemma DropLast(r: seq<Link>, s: seq<Link>, a: Link)
    requires multiset(r + [a]) == multiset(s + [a])
    ensures multiset(r) == multiset(s)
  {
    assert multiset(r + [a]) == multiset(r) + multiset{a};
    assert multiset(s + [a]) == multiset(s) + multiset{a};
    assert multiset(r) == multiset(r + [a]) - multiset{a};
  }

  lemma SortedFront(s: seq<Link>, l: Link, cmp: Cmp, d: set<Link>)
    requires Sorted(s + [l], cmp) && Within(s + [l], d)
    ensures Sorted(s, cmp) && Within(s, d) && l in d
  {
    assert (s + [l])[|s|] == l;
    assert forall i | 0 <= i < |s| :: (s + [l])[i] == s[i];
  }

  lemma SameTiesFront(r: seq<Link>, s: seq<Link>, a: Link, cmp: Cmp, d: set<Link>)
    requires forall x | x in d :: Ties(r + [a], x, cmp) == Ties(s + [a], x, cmp)
    ensures forall x | x in d :: Ties(r, x, cmp) == Ties(s, x, cmp)
  {
    hide Ties;
    forall x | x in d
      ensures Ties(r, x, cmp) == Ties(s, x, cmp)
    {
      TiesAppend(r, a, x, cmp);
      TiesAppend(s, a, x, cmp);
      var t := if cmp(a, x) <= 0 && cmp(x, a) <= 0 then [a] else [];
      assert Ties(r, x, cmp) == (Ties(r, x, cmp) + t)[..|Ties(r, x, cmp) + t| - |t|];
      assert Ties(s, x, cmp) == (Ties(s, x, cmp) + t)[..|Ties(s, x, cmp) + t| - |t|];
    }
  }

  /** Sorted with the same ties leaves nothing open. */
  lemma {:induction false} SameOrder(r: seq<Link>, s: seq<Link>, cmp: Cmp, d: set<Link>)
    requires Preorder(d, cmp) && Within(r, d) && Within(s, d)
    requires multiset(r) == multiset(s) && Sorted(r, cmp) && Sorted(s, cmp)
    requires forall x | x in d :: Ties(r, x, cmp) == Ties(s, x, cmp)
    ensures r == s
  {
    hide *;
    assert |multiset(r)| == |r| && |multiset(s)| == |s|;
    if r != [] {
      var r', s', a, b := r[..|r| - 1], s[..|s| - 1], r[|r| - 1], s[|s| - 1];
      assert r == r' + [a] && s == s' + [b];
      SortedFront(r', a, cmp, d);
      SortedFront(s', b, cmp, d);
      SameLast(r', a, s', b, cmp, d);
      DropLast(r', s', a);
      SameTiesFront(r', s', a, cmp, d);
      SameOrder(r', s', cmp, d);
    }
  }

  /** Sorted, stable and a permutation: the sort's result, and nothing else, is all three. */
  lemma SortingIsTheStableSort(s: seq<Link>, r: seq<Link>, cmp: Cmp, d: set<Link>)
    requires Preorder(d, cmp) && Within(s, d)
    ensures
      r == Sorting(s, cmp)
      <==>
      && multiset(r) == multiset(s)
      && Sorted(r, cmp)
      && forall x | x in d :: Ties(r, x, cmp) == Ties(s, x, cmp)
  {
    var o := Sorting(s, cmp);
    SortingSorted(s, cmp, d);
    SortingMembers(s, cmp, d);
    SortingPermutes(s, cmp);
    forall x | x in d
      ensures Ties(o, x, cmp) == Ties(s, x, cmp)
    {
      SortingStable(s, x, cmp, d);
    }
    if multiset(r) == multiset(s) && Sorted(r, cmp) && forall x | x in d :: Ties(r, x, cmp) == Ties(s, x, cmp) {
      forall l | l in r
        ensures l in d
      {
        assert l in multiset(r);
      }
      SameOrder(r, o, cmp, d);
    }
  }
}
