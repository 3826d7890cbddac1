/** The page layer of the slab allocator: the array of page records, the doubly linked lists threaded
    through it, and ngx_slab_alloc_pages and ngx_slab_free_pages. */
module SlabPages {

  /** The two low bits of `prev`. */
  datatype Kind = PAGE | BIG | EXACT | SMALL

  /** A pointer to a page record: null, a record of the array, or the head of a list. */
  datatype Ptr = Null | At(page: nat) | Head(list: nat)

  /** The `slab` word. For a page of kind PAGE it is a plain number, a number with the start bit, or the
      busy mark; otherwise a shift, a bitmap, or a bitmap and a shift. A bitmap is the set of its one bits. */
  datatype Word =
    | Run(n: nat) | Start(n: nat) | Busy
    | Shift(shift: nat) | Bits(bits: set<nat>) | BigBits(bits: set<nat>, shift: nat)

  datatype Page = Page(slab: Word, next: Ptr, prev: Ptr, kind: Kind)

  /** The records and the `next` of the list heads: slots 0 to 8 and, last, pool->free. */
  datatype Pages = Pages(pages: seq<Page>, heads: seq<Ptr>)

  const SLOTS := 9
  const FREE := 9

  // ----- lists

  function SetNext(s: Pages, p: Ptr, q: Ptr): (r: Pages)
    ensures |r.pages| == |s.pages| && |r.heads| == |s.heads|
  {
    match p
    case At(i) => if i < |s.pages| then s.(pages := s.pages[i := s.pages[i].(next := q)]) else s
    case Head(k) => if k < |s.heads| then s.(heads := s.heads[k := q]) else s
    case Null => s
  }

  /** Only `next` of a list head is ever read, so a write to its `prev` is dropped. */
  function SetPrev(s: Pages, p: Ptr, q: Ptr, kind: Kind): (r: Pages)
    ensures |r.pages| == |s.pages| && |r.heads| == |s.heads|
  {
    match p
    case At(i) => if i < |s.pages| then s.(pages := s.pages[i := s.pages[i].(prev := q, kind := kind)]) else s
    case _ => s
  }

  function Unlinked(s: Pages, i: nat): Pages
    requires i < |s.pages|
  {
    var page := s.pages[i];
    SetPrev(SetNext(s, page.prev, page.next), page.next, page.prev, page.kind)
  }

  function KindOf(list: nat): Kind {
    if list == FREE then PAGE else if list < 3 then SMALL else if list == 3 then EXACT else BIG
  }

  function Nth(l: seq<nat>, j: int, list: nat): Ptr {
    if 0 <= j < |l| then At(l[j]) else Head(list)
  }

  predicate Distinct(l: seq<nat>) {
    forall a, b | 0 <= a < b < |l| :: l[a] != l[b]
  }

  predicate LinkAt(s: Pages, list: nat, l: seq<nat>, j: nat)
    requires j < |l|
  {
    l[j] < |s.pages|
    && var page := s.pages[l[j]];
    page.next == Nth(l, j + 1, list) && page.prev == Nth(l, j - 1, list) && page.kind == KindOf(list)
  }

  ghost predicate Linked(s: Pages, list: nat, l: seq<nat>) {
    forall j: nat {:trigger LinkAt(s, list, l, j)} | j < |l| :: LinkAt(s, list, l, j)
  }

  /** The list goes through the records l in this order, forth by `next` and back by `prev`. */
  ghost predicate Listed(s: Pages, list: nat, l: seq<nat>) {
    list < |s.heads| && s.heads[list] == Nth(l, 0, list) && Distinct(l) && Linked(s, list, l)
  }

  function Without(l: seq<nat>, j: nat): (r: seq<nat>)
    requires j < |l|
    ensures |r| == |l| - 1
  {
    l[..j] + l[j + 1..]
  }

  lemma WithoutMembers(l: seq<nat>, j: nat)
    requires j < |l| && Distinct(l)
    ensures Distinct(Without(l, j))
    ensures forall x :: x in Without(l, j) <==> x in l && x != l[j]
  {
    var r := Without(l, j);
    assert forall a | 0 <= a < |r| :: r[a] == if a < j then l[a] else l[a + 1];
    forall x | x in l && x != l[j]
      ensures x in r
    {
      var a :| 0 <= a < |l| && l[a] == x;
      assert r[if a < j then a else a - 1] == x;
    }
  }

  /** Two states differ in their links only around the record i. */
  predicate SameLinks(s: Pages, r: Pages, i: nat) {
    i < |s.pages| && i < |r.pages| && s.pages[i].next == r.pages[i].next && s.pages[i].prev == r.pages[i].prev
    && s.pages[i].kind == r.pages[i].kind
  }

  lemma ListKept(s: Pages, r: Pages, list: nat, l: seq<nat>)
    requires Listed(s, list, l) && |r.heads| == |s.heads| && r.heads[list] == s.heads[list]
    requires forall i | i in l :: SameLinks(s, r, i)
    ensures Listed(r, list, l)
  {
    hide Distinct, Nth;
    forall j: nat | j < |l|
      ensures LinkAt(r, list, l, j)
    {
      assert LinkAt(s, list, l, j);
      assert l[j] in l;
    }
  }

  /** Taking the j-th record out of its list; only its neighbours are written. */
  lemma UnlinkedList(s: Pages, list: nat, l: seq<nat>, j: nat)
    requires Listed(s, list, l) && j < |l|
    ensures l[j] < |s.pages|
    ensures Listed(Unlinked(s, l[j]), list, Without(l, j))
  {
    assert LinkAt(s, list, l, j);
    var r, w := Unlinked(s, l[j]), Without(l, j);
    WithoutMembers(l, j);
    forall b: nat | b < |w|
      ensures LinkAt(r, list, w, b)
    {
      UnlinkedAt(s, list, l, j, b);
    }
    if j > 0 {
      assert LinkAt(s, list, l, j - 1);
    }
  }

  lemma UnlinkedAt(s: Pages, list: nat, l: seq<nat>, j: nat, b: nat)
    requires Listed(s, list, l) && j < |l| && b + 1 < |l| && l[j] < |s.pages|
    ensures LinkAt(Unlinked(s, l[j]), list, Without(l, j), b)
  {
    assert LinkAt(s, list, l, j);
    var a := if b < j then b else b + 1;
    assert LinkAt(s, list, l, a);
    assert Without(l, j)[b] == l[a];
    if j > 0 {
      assert LinkAt(s, list, l, j - 1);
    }
    if j + 1 < |l| {
      assert LinkAt(s, list, l, j + 1);
    }
  }

  /** The links of a listed record stay inside the pool, and do not point at itself. */
  lemma LinksInside(s: Pages, list: nat, l: seq<nat>, j: nat)
    requires Listed(s, list, l) && j < |l|
    ensures l[j] < |s.pages|
    ensures var page := s.pages[l[j]];
      && page.prev != Null && page.next != Null && page.prev != At(l[j]) && page.next != At(l[j])
        && page.kind == KindOf(list)
      && (page.prev.At? ==> page.prev.page < |s.pages|) && (page.next.At? ==> page.next.page < |s.pages|)
      && (page.prev.Head? ==> page.prev.list == list) && (page.next.Head? ==> page.next.list == list)
  {
    assert LinkAt(s, list, l, j);
    if j > 0 {
      assert LinkAt(s, list, l, j - 1);
    }
    if j + 1 < |l| {
      assert LinkAt(s, list, l, j + 1);
    }
  }

  /** Unlinking leaves every record alone except for the link to the one taken out. */
  lemma UnlinkedElsewhere(s: Pages, list: nat, l: seq<nat>, j: nat)
    requires Listed(s, list, l) && j < |l|
    ensures l[j] < |s.pages|
    ensures var r := Unlinked(s, l[j]);
      && |r.pages| == |s.pages| && |r.heads| == |s.heads|
      && (forall i | 0 <= i < |s.pages| && i !in Without(l, j) :: r.pages[i] == s.pages[i])
      && (forall i | 0 <= i < |s.pages| :: r.pages[i].slab == s.pages[i].slab && r.pages[i].kind == s.pages[i].kind)
      && (forall i | 0 <= i < |s.pages| :: r.pages[i].next == Null <==> s.pages[i].next == Null)
      && (forall k | 0 <= k < |s.heads| && k != list :: r.heads[k] == s.heads[k])
  {
    assert LinkAt(s, list, l, j);
    var w := Without(l, j);
    if j > 0 {
      assert LinkAt(s, list, l, j - 1);
      assert w[j - 1] == l[j - 1];
    }
    if j + 1 < |l| {
      assert LinkAt(s, list, l, j + 1);
      assert w[j] == l[j + 1];
    }
  }

  /** Putting the record i in front of a list. */
  function Pushed(s: Pages, list: nat, i: nat): Pages
    requires i < |s.pages| && list < |s.heads|
  {
    var first := s.heads[list];
    var kind := KindOf(list);
    var page := s.pages[i].(next := first, prev := Head(list), kind := kind);
    SetPrev(s.(pages := s.pages[i := page], heads := s.heads[list := At(i)]), first, At(i), kind)
  }

  lemma PushedList(s: Pages, list: nat, l: seq<nat>, i: nat)
    requires Listed(s, list, l) && i !in l && i < |s.pages|
    ensures Listed(Pushed(s, list, i), list, [i] + l)
  {
    var r, w := Pushed(s, list, i), [i] + l;
    if l != [] {
      assert LinkAt(s, list, l, 0);
    }
    forall b: nat | b < |w|
      ensures LinkAt(r, list, w, b)
    {
      if b > 0 {
        assert LinkAt(s, list, l, b - 1);
        assert l[b - 1] in l;
      }
    }
  }

  lemma PushedElsewhere(s: Pages, list: nat, l: seq<nat>, i: nat)
    requires Listed(s, list, l) && i !in l && i < |s.pages|
    ensures var r := Pushed(s, list, i);
      && |r.pages| == |s.pages| && |r.heads| == |s.heads|
      && r.pages[i].slab == s.pages[i].slab && r.pages[i].kind == KindOf(list) && r.pages[i].next != Null
      && (forall x | 0 <= x < |s.pages| && x !in [i] + l :: r.pages[x] == s.pages[x])
      && (forall x | 0 <= x < |s.pages| && x != i :: r.pages[x] == s.pages[x].(prev := r.pages[x].prev))
      && (forall k | 0 <= k < |s.heads| && k != list :: r.heads[k] == s.heads[k])
  {
    if l != [] {
      assert LinkAt(s, list, l, 0);
      assert l[0] in l;
    }
  }

  /** Putting the record n in the place of the listed record i. */
  function Replaced(s: Pages, i: nat, n: nat): Pages
    requires i < |s.pages| && n < |s.pages|
  {
    var page := s.pages[i];
    var t := s.(pages := s.pages[n := s.pages[n].(next := page.next, prev := page.prev, kind := page.kind)]);
    SetPrev(SetNext(t, page.prev, At(n)), page.next, At(n), page.kind)
  }

  lemma ReplacedList(s: Pages, list: nat, l: seq<nat>, j: nat, n: nat)
    requires Listed(s, list, l) && j < |l| && n !in l && n < |s.pages|
    ensures l[j] < |s.pages|
    ensures Listed(Replaced(s, l[j], n), list, l[j := n])
  {
    assert LinkAt(s, list, l, j);
    var r, w := Replaced(s, l[j], n), l[j := n];
    if j > 0 {
      assert LinkAt(s, list, l, j - 1);
      assert l[j - 1] in l;
    }
    if j + 1 < |l| {
      assert LinkAt(s, list, l, j + 1);
      assert l[j + 1] in l;
    }
    forall b: nat | b < |w|
      ensures LinkAt(r, list, w, b)
    {
      assert LinkAt(s, list, l, b);
      assert l[b] in l;
    }
  }

  lemma ReplacedElsewhere(s: Pages, list: nat, l: seq<nat>, j: nat, n: nat)
    requires Listed(s, list, l) && j < |l| && n !in l && n < |s.pages|
    ensures l[j] < |s.pages|
    ensures var r := Replaced(s, l[j], n);
      && |r.pages| == |s.pages| && |r.heads| == |s.heads|
      && r.pages[n].slab == s.pages[n].slab && r.pages[n].kind == KindOf(list) && r.pages[n].next != Null
      && (forall x | 0 <= x < |s.pages| && x !in l[j := n] :: r.pages[x] == s.pages[x])
      && (forall x | 0 <= x < |s.pages| && x != n ::
        r.pages[x].slab == s.pages[x].slab && r.pages[x].kind == s.pages[x].kind
                                      && (r.pages[x].next == Null <==> s.pages[x].next == Null))
      && (forall k | 0 <= k < |s.heads| && k != list :: r.heads[k] == s.heads[k])
  {
    var w := l[j := n];
    assert LinkAt(s, list, l, j);
    if j > 0 {
      assert LinkAt(s, list, l, j - 1);
      assert l[j - 1] in l && w[j - 1] == l[j - 1];
    }
    if j + 1 < |l| {
      assert LinkAt(s, list, l, j + 1);
      assert l[j + 1] in l && w[j + 1] == l[j + 1];
    }
    assert w[j] == n;
  }

  // ----- what the pages are

  function Capacity(slot: nat): nat {
    match slot
    case 0 => 512 case 1 => 256 case 2 => 128 case 3 => 64 case 4 => 32
    case 5 => 16 case 6 => 8 case 7 => 4 case _ => 2
  }

  /** Chunks at the start of a small page that hold its bitmap. */
  function Reserved(slot: nat): nat {
    match slot
    case 0 => 8 case 1 => 2 case 2 => 1 case _ => 0
  }

  predicate Bit(x: nat) {
    true
  }

  function Below(n: nat): (r: set<nat>)
    ensures forall x: nat :: x in r <==> x < n
  {
    set x: nat {:trigger Bit(x)} | x < n && Bit(x)
  }

  lemma {:induction false} BelowSize(n: nat)
    ensures |Below(n)| == n
  {
    if n > 0 {
      BelowSize(n - 1);
      assert Below(n) == Below(n - 1) + {n - 1};
    } else {
      assert Below(n) == {};
    }
  }

  /** What starts at a page: a run of free or of allocated pages, a run in transit, a page of chunks with
      the set of those taken, the bitmap's own included, or nothing, inside a run. */
  datatype Cell = Free(len: nat) | Used(len: nat) | Loose(len: nat) | Slab(slot: nat, chunks: set<nat>) | Inside

  /** The pages as runs: where the run of a page starts, what starts at a page, and the lists in order. */
  datatype Book = Book(own: seq<nat>, cells: seq<Cell>, lists: seq<seq<nat>>)

  function Len(c: Cell): nat {
    match c
    case Slab(_, _) => 1
    case Inside => 0
    case _ => c.len
  }

  /** The list a run or page is on, or -1. */
  function ListOf(c: Cell): int {
    match c
    case Free(_) => FREE
    case Slab(slot, chunks) => if chunks == Below(Capacity(slot)) then -1 else slot
    case _ => -1
  }

  ghost predicate Spans(b: Book, h: nat)
    requires |b.own| == |b.cells| && h < |b.cells|
  {
    1 <= Len(b.cells[h]) && h + Len(b.cells[h]) <= |b.own| && forall j | h <= j < h + Len(b.cells[h]) :: b.own[j] == h
  }

  predicate Owned(b: Book, i: nat)
    requires |b.own| == |b.cells| && i < |b.cells|
  {
    b.own[i] <= i && b.cells[b.own[i]] != Inside && i < b.own[i] + Len(b.cells[b.own[i]])
  }

  /** The runs cover every page once. */
  ghost predicate Tiled(b: Book) {
    |b.own| == |b.cells| >= 1
    && (forall i {:trigger Owned(b, i)} | 0 <= i < |b.own| :: Owned(b, i))
    && (forall h {:trigger Spans(b, h)} | 0 <= h < |b.own| && b.cells[h] != Inside :: Spans(b, h))
  }

  predicate SlabWord(slot: nat, chunks: set<nat>, w: Word) {
    if slot < 3 then w == Shift(slot + 3) else if slot == 3 then w == Bits(chunks) else w == BigBits(chunks, slot + 3)
  }

  /** The record of page i agrees with the book. */
  predicate Record(page: Page, b: Book, i: nat)
    requires |b.own| == |b.cells| && i < |b.own|
  {
    match b.cells[i]
    case Free(n) => page.slab == Run(n)
    case Loose(n) => page.slab == Run(n)
    case Used(n) => page.slab == Start(n) && page.next == Null && page.kind == PAGE
    case Slab(slot, chunks) => slot < SLOTS && chunks <= Below(Capacity(slot)) && SlabWord(slot, chunks, page.slab)
                               && page.kind == KindOf(slot) && (chunks == Below(Capacity(slot)) ==> page.next == Null)
    case Inside =>
      var h := b.own[i];
      page.next == Null && page.kind == PAGE && h < |b.cells|
      && page.slab == (if b.cells[h].Used? then Busy else Run(0))
      && (b.cells[h].Free? && i + 1 == h + b.cells[h].len && i + 1 < |b.own| ==> page.prev == At(h))
  }

  ghost predicate Records(s: Pages, b: Book)
    requires |b.own| == |b.cells|
  {
    |s.pages| == |b.own| && forall i {:trigger s.pages[i]} | 0 <= i < |s.pages| :: Record(s.pages[i], b, i)
  }

  /** A page is on the list it belongs to, and on no other. */
  ghost predicate Members(b: Book) {
    |b.lists| == SLOTS + 1
    && forall k, i: nat {:trigger i in b.lists[k]} | 0 <= k <= SLOTS ::
      i in b.lists[k] <==> i < |b.cells| && ListOf(b.cells[i]) == k
  }

  ghost predicate Lists(s: Pages, b: Book) {
    |s.heads| == |b.lists| && forall k: nat {:trigger Listed(s, k, b.lists[k])} | k < |b.lists| ::
      Listed(s, k, b.lists[k])
  }

  predicate ApartAt(b: Book, h: nat)
    requires h < |b.cells|
  {
    b.cells[h].Free? && h + b.cells[h].len < |b.cells| ==> !b.cells[h + b.cells[h].len].Free?
  }

  /** No two free runs touch. */
  ghost predicate Apart(b: Book) {
    forall h: nat {:trigger ApartAt(b, h)} | h < |b.cells| :: ApartAt(b, h)
  }

  /** The pages that lie in free runs or runs in transit. */
  ghost function Avail(b: Book): set<nat>
    requires Tiled(b)
  {
    set i: nat | i < |b.own| && Owned(b, i) && (b.cells[b.own[i]].Free? || b.cells[b.own[i]].Loose?)
  }

  ghost predicate Inv(s: Pages, b: Book) {
    Tiled(b) && Records(s, b) && Members(b) && Lists(s, b) && Apart(b)
  }

  // ----- changes of the book

  /** The page h starts something else of the same length. */
  function Retag(b: Book, h: nat, c: Cell): Book
    requires h < |b.cells|
  {
    b.(cells := b.cells[h := c])
  }

  function Reown(own: seq<nat>, lo: nat, hi: nat, h: nat): seq<nat> {
    seq(|own|, i requires 0 <= i < |own| => if lo <= i < hi then h else own[i])
  }

  /** The run after h becomes part of the run at h, which is in transit. */
  function Merge(b: Book, h: nat): Book
    requires h < |b.cells| && h + Len(b.cells[h]) < |b.cells|
  {
    var n, j := Len(b.cells[h]), h + Len(b.cells[h]);
    var m := Len(b.cells[j]);
    b.(own := Reown(b.own, j, j + m, h), cells := b.cells[j := Inside][h := Loose(n + m)])
  }

  /** The first n pages of the run at h are in transit; the rest stays free. */
  function Split(b: Book, h: nat, n: nat): Book
    requires h < |b.cells| && n < Len(b.cells[h]) && h + n < |b.cells|
  {
    var m := Len(b.cells[h]);
    b.(own := Reown(b.own, h + n, h + m, h + n), cells := b.cells[h := Loose(n)][h + n := Free(m - n)])
  }

  lemma HeadOwns(b: Book, h: nat)
    requires Tiled(b) && h < |b.cells|
    ensures b.cells[h] != Inside <==> b.own[h] == h
  {
    assert Owned(b, h);
    if b.cells[h] != Inside {
      assert Spans(b, h);
    }
  }

  lemma RetagTiled(b: Book, h: nat, c: Cell)
    requires Tiled(b) && h < |b.cells| && b.cells[h] != Inside && c != Inside && Len(c) == Len(b.cells[h])
    ensures Tiled(Retag(b, h, c))
  {
    var r := Retag(b, h, c);
    forall i | 0 <= i < |r.own|
      ensures Owned(r, i)
    {
      assert Owned(b, i);
    }
    forall i | 0 <= i < |r.own| && r.cells[i] != Inside
      ensures Spans(r, i)
    {
      assert Spans(b, i);
    }
  }

  lemma MergeTiled(b: Book, h: nat)
    requires Tiled(b) && h < |b.cells| && b.cells[h] != Inside && h + Len(b.cells[h]) < |b.cells|
    ensures b.cells[h + Len(b.cells[h])] != Inside && Tiled(Merge(b, h))
  {
    var r, j := Merge(b, h), h + Len(b.cells[h]);
    NextIsHead(b, h);
    assert Spans(b, h) && Spans(b, j);
    forall i | 0 <= i < |r.own|
      ensures Owned(r, i)
    {
      assert Owned(b, i);
    }
    forall i | 0 <= i < |r.own| && r.cells[i] != Inside
      ensures Spans(r, i)
    {
      assert Spans(b, i);
      RunsDisjoint(b, i, j);
    }
  }

  /** A run starts where the one before it ends. */
  lemma NextIsHead(b: Book, h: nat)
    requires Tiled(b) && h < |b.cells| && b.cells[h] != Inside && h + Len(b.cells[h]) < |b.cells|
    ensures b.cells[h + Len(b.cells[h])] != Inside
  {
    var j := h + Len(b.cells[h]);
    assert Spans(b, h) && Owned(b, j);
    RunsDisjoint(b, h, b.own[j]);
  }

  lemma RunsDisjoint(b: Book, g: nat, h: nat)
    requires Tiled(b) && g < |b.cells| && h < |b.cells| && b.cells[g] != Inside && b.cells[h] != Inside
    ensures g == h || g + Len(b.cells[g]) <= h || h + Len(b.cells[h]) <= g
  {
    assert Spans(b, g) && Spans(b, h);
    assert b.own[g] == g && b.own[h] == h;
  }

  lemma SplitTiled(b: Book, h: nat, n: nat)
    requires Tiled(b) && h < |b.cells| && b.cells[h] != Inside && 1 <= n < Len(b.cells[h])
    ensures h + n < |b.cells| && Tiled(Split(b, h, n)) && b.cells[h + n] == Inside
  {
    assert Spans(b, h);
    HeadOwns(b, h + n);
    var r := Split(b, h, n);
    forall i | 0 <= i < |r.own|
      ensures Owned(r, i)
    {
      assert Owned(b, i);
    }
    forall i | 0 <= i < |r.own| && r.cells[i] != Inside
      ensures Spans(r, i)
    {
      if i != h && i != h + n {
        assert Spans(b, i);
        RunsDisjoint(b, i, h);
      }
    }
  }

  // ----- steps of ngx_slab_alloc_pages and ngx_slab_free_pages

  const ZERO := Page(Run(0), Null, Null, PAGE)
  const TAKEN := Page(Busy, Null, Null, PAGE)

  function SetPage(s: Pages, i: nat, page: Page): Pages
    requires i < |s.pages|
  {
    s.(pages := s.pages[i := page])
  }

  function SetSlab(s: Pages, i: nat, w: Word): Pages
    requires i < |s.pages|
  {
    SetPage(s, i, s.pages[i].(slab := w))
  }

  function Fill(s: Pages, lo: nat, hi: nat, page: Page): Pages {
    s.(pages := seq(|s.pages|, i requires 0 <= i < |s.pages| => if lo <= i < hi then page else s.pages[i]))
  }

  /** The lists stay when no listed record and no list head is touched. */
  lemma ListsKept(s: Pages, r: Pages, b: Book, c: Book)
    requires Lists(s, b) && Members(b) && c.lists == b.lists
    requires r.heads == s.heads && |s.pages| == |r.pages| == |b.cells|
    requires forall i | 0 <= i < |b.cells| && ListOf(b.cells[i]) >= 0 :: SameLinks(s, r, i)
    ensures Lists(r, c)
  {
    forall k: nat | k < |c.lists|
      ensures Listed(r, k, c.lists[k])
    {
      assert Listed(s, k, b.lists[k]);
      forall i | i in b.lists[k]
        ensures SameLinks(s, r, i)
      {
      }
      hide Listed, ListOf;
      ListKept(s, r, k, b.lists[k]);
    }
  }

  /** An allocated run becomes a run in transit: its length is written and the rest is zeroed. */
  lemma LoosenUsed(s: Pages, b: Book, h: nat)
    requires Inv(s, b) && h < |b.cells| && b.cells[h].Used?
    ensures var n := b.cells[h].len; Inv(Fill(SetSlab(s, h, Run(n)), h + 1, h + n, ZERO), Retag(b, h, Loose(n)))
  {
    var n := b.cells[h].len;
    var r, c := Fill(SetSlab(s, h, Run(n)), h + 1, h + n, ZERO), Retag(b, h, Loose(n));
    RetagTiled(b, h, Loose(n));
    RetagApart(b, h, Loose(n));
    InsideRun(b, h);
    assert Spans(b, h);
    hide Apart;
    ListsKept(s, r, b, c);
    forall i | 0 <= i < |r.pages|
      ensures Record(r.pages[i], c, i)
    {
      hide Members, Lists, Spans;
      assert Record(s.pages[i], b, i);
      assert Owned(b, i);
    }
    hide Lists, Tiled;
  }

  lemma RetagApart(b: Book, h: nat, c: Cell)
    requires Apart(b) && h < |b.cells| && !c.Free?
    ensures Apart(Retag(b, h, c))
  {
    forall i: nat | i < |b.cells|
      ensures ApartAt(Retag(b, h, c), i)
    {
      assert ApartAt(b, i);
    }
  }

  lemma InsideRun(b: Book, h: nat)
    requires Tiled(b) && h < |b.cells| && b.cells[h] != Inside
    ensures forall i | h < i < h + Len(b.cells[h]) :: i < |b.cells| && b.own[i] == h && b.cells[i] == Inside
    ensures forall i | 0 <= i < |b.cells| && b.own[i] == h :: h <= i < h + Len(b.cells[h])
  {
    assert Spans(b, h);
    forall i | h < i < h + Len(b.cells[h])
      ensures b.own[i] == h && b.cells[i] == Inside
    {
      HeadOwns(b, i);
    }
    forall i | 0 <= i < |b.cells| && b.own[i] == h
      ensures h <= i < h + Len(b.cells[h])
    {
      assert Owned(b, i);
    }
  }

  /** Where a listed page is on its list. */
  lemma OnList(s: Pages, b: Book, i: nat) returns (j: nat)
    requires Inv(s, b) && i < |b.cells| && ListOf(b.cells[i]) >= 0
    ensures ListOf(b.cells[i]) <= SLOTS && j < |b.lists[ListOf(b.cells[i])]| && b.lists[ListOf(b.cells[i])][j] == i
    ensures Listed(s, ListOf(b.cells[i]), b.lists[ListOf(b.cells[i])])
  {
    var k := ListOf(b.cells[i]);
    assert Record(s.pages[i], b, i);
    assert i in b.lists[k];
    j :| 0 <= j < |b.lists[k]| && b.lists[k][j] == i;
    assert Listed(s, k, b.lists[k]);
  }

  /** A listed run or page is taken off its list and becomes c. */
  function OffTo(b: Book, i: nat, j: nat, c: Cell): Book
    requires i < |b.cells| && 0 <= ListOf(b.cells[i]) < |b.lists| && j < |b.lists[ListOf(b.cells[i])]|
  {
    var k := ListOf(b.cells[i]);
    Retag(b.(lists := b.lists[k := Without(b.lists[k], j)]), i, c)
  }

  function Off(b: Book, i: nat, j: nat): Book
    requires i < |b.cells| && 0 <= ListOf(b.cells[i]) < |b.lists| && j < |b.lists[ListOf(b.cells[i])]|
  {
    OffTo(b, i, j, Loose(Len(b.cells[i])))
  }

  lemma ListsOff(s: Pages, b: Book, i: nat, j: nat, c: Cell, w: Word)
    requires Inv(s, b) && i < |b.cells| && 0 <= ListOf(b.cells[i]) <= SLOTS && ListOf(c) == -1
    requires j < |b.lists[ListOf(b.cells[i])]| && b.lists[ListOf(b.cells[i])][j] == i
    ensures var r := Unlinked(SetSlab(s, i, w), i);
      && Lists(r, OffTo(b, i, j, c)) && Members(OffTo(b, i, j, c)) && |r.pages| == |s.pages| && r.pages[i].slab == w
      && forall x | 0 <= x < |s.pages| && x != i ::
        && r.pages[x].slab == s.pages[x].slab && r.pages[x].kind == s.pages[x].kind
        && (r.pages[x].next == Null <==> s.pages[x].next == Null) && (b.cells[x] == Inside ==> r.pages[x] == s.pages[x])
  {
    var k := ListOf(b.cells[i]);
    var l, e, t := b.lists[k], OffTo(b, i, j, c), SetSlab(s, i, w);
    var r := Unlinked(t, i);
    assert Listed(s, k, l);
    hide Listed;
    forall m: nat | m < |b.lists|
      ensures Listed(t, m, b.lists[m])
    {
      assert Listed(s, m, b.lists[m]);
      ListKept(s, t, m, b.lists[m]);
    }
    UnlinkedList(t, k, l, j);
    UnlinkedElsewhere(t, k, l, j);
    DistinctOf(s, k, l);
    WithoutMembers(l, j);
    forall m: nat | m < |e.lists|
      ensures Listed(r, m, e.lists[m])
    {
      if m != k {
        ListKept(t, r, m, b.lists[m]);
      }
    }
  }

  lemma DistinctOf(s: Pages, list: nat, l: seq<nat>)
    requires Listed(s, list, l)
    ensures Distinct(l)
  {
  }

  /** A free run is taken off the free list, or an emptied page off the list of its slot. */
  lemma LoosenListed(s: Pages, b: Book, i: nat, j: nat)
    requires Inv(s, b) && i < |b.cells| && 0 <= ListOf(b.cells[i]) <= SLOTS
    requires j < |b.lists[ListOf(b.cells[i])]| && b.lists[ListOf(b.cells[i])][j] == i
    ensures var r := SetSlab(s, i, Run(Len(b.cells[i]))); Inv(Unlinked(r, i), Off(b, i, j))
  {
    var r, c := Unlinked(SetSlab(s, i, Run(Len(b.cells[i]))), i), Off(b, i, j);
    ListsOff(s, b, i, j, Loose(Len(b.cells[i])), Run(Len(b.cells[i])));
    RetagTiled(b, i, Loose(Len(b.cells[i])));
    RetagApart(b, i, Loose(Len(b.cells[i])));
    TiledByParts(Retag(b, i, Loose(Len(b.cells[i]))), c);
    InsideRun(b, i);
    hide Lists, Members, Spans;
    forall x | 0 <= x < |r.pages|
      ensures Record(r.pages[x], c, x)
    {
      assert Record(s.pages[x], b, x);
      assert Owned(b, x);
    }
    hide Tiled;
    assert Apart(c) by {
      forall x: nat | x < |c.cells|
        ensures ApartAt(c, x)
      {
        assert ApartAt(Retag(b, i, Loose(Len(b.cells[i]))), x);
      }
    }
  }

  lemma TiledByParts(b: Book, c: Book)
    requires Tiled(b) && c.own == b.own && c.cells == b.cells
    ensures Tiled(c) && (Avail(c) == Avail(b))
  {
    forall i | 0 <= i < |c.own|
      ensures Owned(c, i) && Owned(b, i)
    {
      assert Owned(b, i);
    }
    forall h | 0 <= h < |c.own| && c.cells[h] != Inside
      ensures Spans(c, h)
    {
      assert Spans(b, h);
    }
  }

  lemma MergeRecord(s: Pages, b: Book, h: nat, x: nat)
    requires Tiled(b) && Records(s, b) && h < |b.cells| && b.cells[h].Loose? && h + b.cells[h].len < |b.cells|
    requires b.cells[h + b.cells[h].len].Loose? && x < |b.cells|
    ensures var n := b.cells[h].len; var m := b.cells[h + n].len;
      Record(SetPage(SetSlab(s, h, Run(n + m)), h + n, ZERO).pages[x], Merge(b, h), x)
  {
    var j := h + b.cells[h].len;
    assert Record(s.pages[x], b, x) && Owned(b, x);
    HeadOwns(b, x);
    InsideRun(b, h);
    InsideRun(b, j);
  }

  /** Two runs in transit that touch become one. */
  lemma MergeLoose(s: Pages, b: Book, h: nat)
    requires Inv(s, b) && h < |b.cells| && b.cells[h].Loose? && h + b.cells[h].len < |b.cells|
    requires b.cells[h + b.cells[h].len].Loose?
    ensures var n := b.cells[h].len; var m := b.cells[h + n].len;
      Inv(SetPage(SetSlab(s, h, Run(n + m)), h + n, ZERO), Merge(b, h))
  {
    var n := b.cells[h].len;
    var m := b.cells[h + n].len;
    var r, c := SetPage(SetSlab(s, h, Run(n + m)), h + n, ZERO), Merge(b, h);
    MergeTiled(b, h);
    forall x | 0 <= x < |r.pages|
      ensures Record(r.pages[x], c, x)
    {
      MergeRecord(s, b, h, x);
    }
    hide Record;
    ListsKept(s, r, b, c);
    forall x: nat | x < |c.cells|
      ensures ApartAt(c, x)
    {
      assert ApartAt(b, x);
    }
  }

  /** A run in transit is put on the free list; its last page points back to its first. */
  function Publish(s: Pages, h: nat, n: nat): Pages
    requires h + n <= |s.pages| && n > 0 && FREE < |s.heads|
  {
    Pushed(if n > 1 then Tail(s, h, n, h) else s, FREE, h)
  }

  function Published(b: Book, h: nat): Book
    requires h < |b.cells| && FREE < |b.lists|
  {
    On(b, FREE, h, Free(Len(b.cells[h])))
  }

  /** Nothing free ends where page h starts. */
  ghost predicate NoFreeBefore(b: Book, h: nat) {
    forall g: nat {:trigger b.cells[g]} | g < |b.cells| && b.cells[g].Free? :: g + b.cells[g].len != h
  }

  /** The page i is put in front of list k, where its new cell belongs. */
  function On(b: Book, k: nat, i: nat, c: Cell): Book
    requires i < |b.cells| && k < |b.lists|
  {
    Retag(b.(lists := b.lists[k := [i] + b.lists[k]]), i, c)
  }

  lemma ListsOn(s: Pages, b: Book, k: nat, i: nat, c: Cell)
    requires Lists(s, b) && Members(b) && |s.pages| == |b.cells| && i < |b.cells|
    requires ListOf(b.cells[i]) == -1 && ListOf(c) == k && k < |b.lists|
    ensures Lists(Pushed(s, k, i), On(b, k, i, c)) && Members(On(b, k, i, c))
  {
    var r, e, l := Pushed(s, k, i), On(b, k, i, c), b.lists[k];
    assert Listed(s, k, l);
    PushedList(s, k, l, i);
    PushedElsewhere(s, k, l, i);
    hide Listed;
    forall m: nat | m < |e.lists|
      ensures Listed(r, m, e.lists[m])
    {
      if m != k {
        assert Listed(s, m, b.lists[m]);
        ListKept(s, r, m, b.lists[m]);
      }
    }
  }

  lemma PushedFields(s: Pages, b: Book, k: nat, i: nat)
    requires Lists(s, b) && Members(b) && |s.pages| == |b.cells| && i < |b.cells|
    requires ListOf(b.cells[i]) == -1 && k < |b.lists|
    ensures var r := Pushed(s, k, i);
      && |r.pages| == |s.pages| && r.pages[i].slab == s.pages[i].slab && r.pages[i].kind == KindOf(k)
        && r.pages[i].next != Null
      && (forall x | 0 <= x < |s.pages| && x != i :: r.pages[x] == s.pages[x].(prev := r.pages[x].prev))
      && (forall x | 0 <= x < |s.pages| && x != i && ListOf(b.cells[x]) == -1 :: r.pages[x] == s.pages[x])
  {
    assert Listed(s, k, b.lists[k]);
    PushedElsewhere(s, k, b.lists[k], i);
  }

  function Tail(s: Pages, h: nat, n: nat, head: nat): Pages
    requires h + n <= |s.pages| && n > 0
  {
    SetPage(s, h + n - 1, s.pages[h + n - 1].(prev := At(head), kind := PAGE))
  }

  /** Writing the back pointer of the last page of a run. */
  lemma TailKept(s: Pages, b: Book, h: nat, n: nat, head: nat)
    requires Inv(s, b) && h < |b.cells| && b.cells[h] != Inside && Len(b.cells[h]) == n > 1
    ensures h + n <= |s.pages| && Lists(Tail(s, h, n, head), b)
    ensures forall x | 0 <= x < |s.pages| && x != h + n - 1 :: Tail(s, h, n, head).pages[x] == s.pages[x]
    ensures Tail(s, h, n, head).pages[h + n - 1] == s.pages[h + n - 1].(prev := At(head))
  {
    assert Spans(b, h);
    InsideRun(b, h);
    assert Record(s.pages[h + n - 1], b, h + n - 1);
    ListsKept(s, Tail(s, h, n, head), b, b);
  }

  lemma PublishRecord(s: Pages, b: Book, h: nat, x: nat)
    requires Inv(s, b) && h < |b.cells| && b.cells[h].Loose? && x < |b.cells|
    ensures h + b.cells[h].len <= |s.pages| && b.cells[h].len > 0
    ensures Record(Publish(s, h, b.cells[h].len).pages[x], Published(b, h), x)
  {
    var n := b.cells[h].len;
    assert Spans(b, h);
    InsideRun(b, h);
    var t := if n > 1 then Tail(s, h, n, h) else s;
    if n > 1 {
      TailKept(s, b, h, n, h);
    }
    assert Lists(t, b);
    PushedFields(t, b, FREE, h);
    assert Record(s.pages[x], b, x) && Owned(b, x);
    hide Pushed, Tail, Members, Lists, Records, Tiled, Spans, Apart;
    assert t.pages[x] == s.pages[x] || x == h + n - 1;
    assert x != h ==> Publish(s, h, n).pages[x] == t.pages[x].(prev := Publish(s, h, n).pages[x].prev);
    assert b.cells[x] == Inside ==> Publish(s, h, n).pages[x] == t.pages[x];
  }

  lemma PublishLoose(s: Pages, b: Book, h: nat)
    requires Inv(s, b) && h < |b.cells| && b.cells[h].Loose? && NoFreeBefore(b, h)
    requires h + b.cells[h].len < |b.cells| ==> !b.cells[h + b.cells[h].len].Free?
    ensures h + b.cells[h].len <= |s.pages| && b.cells[h].len > 0
    ensures Inv(Publish(s, h, b.cells[h].len), Published(b, h))
  {
    assert Spans(b, h);
    var n := b.cells[h].len;
    var t := if n > 1 then Tail(s, h, n, h) else s;
    if n > 1 {
      TailKept(s, b, h, n, h);
    }
    ListsOn(t, b, FREE, h, Free(n));
    var r, c := Publish(s, h, n), Published(b, h);
    assert |r.pages| == |s.pages|;
    hide Publish, Members, Lists;
    RetagTiled(b, h, Free(n));
    TiledByParts(Retag(b, h, Free(n)), c);
    forall x | 0 <= x < |r.pages|
      ensures Record(r.pages[x], c, x)
    {
      PublishRecord(s, b, h, x);
    }
    forall x: nat | x < |c.cells|
      ensures ApartAt(c, x)
    {
      assert ApartAt(b, x);
    }
  }

  /** A run in transit becomes an allocated one. */
  function Claim(s: Pages, h: nat, n: nat): Pages
    requires h < |s.pages|
  {
    Fill(SetPage(s, h, Page(Start(n), Null, Null, PAGE)), h + 1, h + n, TAKEN)
  }

  lemma ClaimLoose(s: Pages, b: Book, h: nat)
    requires Inv(s, b) && h < |b.cells| && b.cells[h].Loose?
    ensures var n := b.cells[h].len; Inv(Claim(s, h, n), Retag(b, h, Used(n)))
  {
    var n := b.cells[h].len;
    var r, c := Claim(s, h, n), Retag(b, h, Used(n));
    RetagTiled(b, h, Used(n));
    RetagApart(b, h, Used(n));
    InsideRun(b, h);
    assert Spans(b, h);
    hide Apart;
    ListsKept(s, r, b, c);
    forall x | 0 <= x < |r.pages|
      ensures Record(r.pages[x], c, x)
    {
      hide Members, Lists, Spans;
      assert Record(s.pages[x], b, x);
      assert Owned(b, x);
    }
    hide Lists, Tiled;
  }

  /** The first n pages of a longer free run are cut off; what is left takes its place on the list. */
  function CutRecords(s: Pages, h: nat, len: nat, n: nat): Pages
    requires 0 < n < len && h + len <= |s.pages|
  {
    Replaced(SetSlab(Tail(s, h, len, h + n), h + n, Run(len - n)), h, h + n)
  }

  function Placed(l: seq<nat>, j: nat, n: nat): seq<nat>
    requires j < |l|
  {
    l[j := n]
  }

  function Cut(b: Book, h: nat, j: nat, n: nat): Book
    requires h < |b.cells| && n < Len(b.cells[h]) && h + n < |b.cells| && FREE < |b.lists| && j < |b.lists[FREE]|
  {
    Split(b.(lists := b.lists[FREE := Placed(b.lists[FREE], j, h + n)]), h, n)
  }

  lemma ListsReplaced(s: Pages, b: Book, h: nat, j: nat, n: nat)
    requires Lists(s, b) && Members(b) && |s.pages| == |b.cells| && h < |b.cells| && n < |b.cells|
    requires b.cells[h].Free? && b.cells[n] == Inside && j < |b.lists[FREE]| && b.lists[FREE][j] == h
    ensures var r := Replaced(s, h, n);
      && Lists(r, b.(lists := b.lists[FREE := Placed(b.lists[FREE], j, n)]))
      && |r.pages| == |s.pages| && r.pages[n].slab == s.pages[n].slab
      && (forall x | 0 <= x < |s.pages| && x != n ::
            && r.pages[x].slab == s.pages[x].slab && r.pages[x].kind == s.pages[x].kind
            && (r.pages[x].next == Null <==> s.pages[x].next == Null))
      && (forall x | 0 <= x < |s.pages| && x != n && ListOf(b.cells[x]) != FREE :: r.pages[x] == s.pages[x])
  {
    var l := b.lists[FREE];
    assert Listed(s, FREE, l);
    ReplacedList(s, FREE, l, j, n);
    ReplacedElsewhere(s, FREE, l, j, n);
    DistinctOf(s, FREE, l);
    ReplacedMembers(l, j, n);
    var r, c := Replaced(s, h, n), b.(lists := b.lists[FREE := Placed(l, j, n)]);
    forall x | 0 <= x < |s.pages| && x != n && ListOf(b.cells[x]) != FREE
      ensures r.pages[x] == s.pages[x]
    {
      assert x !in l;
      assert x !in Placed(l, j, n);
    }
    hide Listed, Distinct, Replaced;
    forall k: nat | k < |c.lists|
      ensures Listed(r, k, c.lists[k])
    {
      if k != FREE {
        assert Listed(s, k, b.lists[k]);
        ListKept(s, r, k, b.lists[k]);
      }
    }
  }

  lemma CutMembers(b: Book, h: nat, j: nat, n: nat)
    requires Members(b) && h < |b.cells| && b.cells[h].Free? && 0 < n < b.cells[h].len && h + n < |b.cells|
    requires b.cells[h + n] == Inside && Distinct(b.lists[FREE]) && j < |b.lists[FREE]| && b.lists[FREE][j] == h
    ensures Members(Cut(b, h, j, n))
  {
    var t: nat := h + n;
    assert t !in b.lists[FREE];
    ReplacedMembers(b.lists[FREE], j, t);
    var c := Cut(b, h, j, n);
    assert c.lists == b.lists[FREE := Placed(b.lists[FREE], j, t)];
    hide Distinct, Placed;
    forall k, i: nat | 0 <= k <= SLOTS
      ensures i in c.lists[k] <==> i < |c.cells| && ListOf(c.cells[i]) == k
    {
      assert i in b.lists[k] <==> i < |b.cells| && ListOf(b.cells[i]) == k;
      assert h in b.lists[k] <==> ListOf(b.cells[h]) == k;
    }
  }

  lemma FreeDistinct(s: Pages, b: Book)
    requires Lists(s, b) && Members(b)
    ensures Distinct(b.lists[FREE])
  {
    assert Listed(s, FREE, b.lists[FREE]);
  }

  /** The back pointer of the rest is written first. */
  lemma CutBegins(s: Pages, b: Book, h: nat, n: nat)
    requires Inv(s, b) && h < |b.cells| && b.cells[h].Free? && 0 < n < b.cells[h].len
    ensures Members(b) && |s.pages| == |b.cells| && Lists(s, b)
    ensures var m := b.cells[h].len;
      && h + m <= |s.pages| && b.cells[h + n] == b.cells[h + m - 1] == Inside
      && Lists(Tail(s, h, m, h + n), b)
      && (forall x | 0 <= x < |s.pages| && x != h + m - 1 :: Tail(s, h, m, h + n).pages[x] == s.pages[x])
      && Tail(s, h, m, h + n).pages[h + m - 1] == s.pages[h + m - 1].(prev := At(h + n))
  {
    hide Lists, Tail, Record, Apart, Distinct, Members;
    var m := b.cells[h].len;
    assert Spans(b, h);
    InsideRun(b, h);
    assert Members(b) && |s.pages| == |b.cells| && Lists(s, b);
    hide Inv;
    assert b.own[h + n] == b.own[h + m - 1] == h;
    TailKept(s, b, h, m, h + n);
  }

  lemma ListsCut(s: Pages, b: Book, h: nat, j: nat, n: nat)
    requires Inv(s, b) && h < |b.cells| && b.cells[h].Free? && 0 < n < b.cells[h].len
    requires j < |b.lists[FREE]| && b.lists[FREE][j] == h
    ensures h + b.cells[h].len <= |s.pages| && h + n < |b.cells|
    ensures var r, m := CutRecords(s, h, b.cells[h].len, n), b.cells[h].len;
      && Lists(SetSlab(r, h, Run(n)), Cut(b, h, j, n))
      && |r.pages| == |s.pages| && r.pages[h + n].slab == Run(m - n)
      && (m - n > 1 ==> r.pages[h + m - 1] == s.pages[h + m - 1].(prev := At(h + n)))
      && (forall x | 0 <= x < |s.pages| && x != h + n ::
            && r.pages[x].slab == s.pages[x].slab && r.pages[x].kind == s.pages[x].kind
            && (r.pages[x].next == Null <==> s.pages[x].next == Null))
      && (forall x | 0 <= x < |s.pages| && x != h + n && x != h + m - 1 && b.cells[x] == Inside ::
        r.pages[x] == s.pages[x])
  {
    var m := b.cells[h].len;
    CutBegins(s, b, h, n);
    FreeDistinct(s, b);
    var t := Tail(s, h, m, h + n);
    var u := SetSlab(t, h + n, Run(m - n));
    hide Tail, Inv, Tiled, Spans, Records, Apart, Lists, Members, Distinct;
    ListsKept(t, u, b, b);
    ListsReplaced(u, b, h, j, n + h);
    CutMembers(b, h, j, n);
    var r, c := Replaced(u, h, h + n), Cut(b, h, j, n);
    var w := SetSlab(r, h, Run(n));
    hide Replaced;
    ListsKept(r, w, c, c);
  }

  lemma ReplacedMembers(l: seq<nat>, j: nat, n: nat)
    requires j < |l| && Distinct(l) && n !in l
    ensures Distinct(Placed(l, j, n))
    ensures forall x: nat :: x in Placed(l, j, n) <==> x == n || (x in l && x != l[j])
  {
    var r := l[j := n];
    assert r[j] == n;
    forall x | x in l && x != l[j]
      ensures x in r
    {
      var a :| 0 <= a < |l| && l[a] == x;
      assert r[a] == x;
    }
  }

  lemma CutRecord(s: Pages, b: Book, h: nat, j: nat, n: nat, x: nat)
    requires Inv(s, b) && h < |b.cells| && b.cells[h].Free? && 0 < n < b.cells[h].len && x < |b.cells|
    requires j < |b.lists[FREE]| && b.lists[FREE][j] == h
    ensures h + b.cells[h].len <= |s.pages| && h + n < |b.cells|
    ensures var r := SetSlab(CutRecords(s, h, b.cells[h].len, n), h, Run(n));
      |r.pages| == |s.pages| && Record(r.pages[x], Cut(b, h, j, n), x)
  {
    ListsCut(s, b, h, j, n);
    InsideRun(b, h);
    HeadOwns(b, x);
    assert Owned(b, x) && Record(s.pages[x], b, x) && Record(s.pages[h], b, h);
    hide CutRecords, Members, Lists, Placed, Inv, Tiled, Spans;
  }

  lemma CutApart(b: Book, h: nat, j: nat, n: nat)
    requires Tiled(b) && Apart(b) && h < |b.cells| && b.cells[h].Free? && 0 < n < b.cells[h].len && h + n < |b.cells|
    requires FREE < |b.lists| && j < |b.lists[FREE]|
    ensures Apart(Cut(b, h, j, n))
  {
    var c := Cut(b, h, j, n);
    InsideRun(b, h);
    forall x: nat | x < |c.cells|
      ensures ApartAt(c, x)
    {
      assert ApartAt(b, x) && ApartAt(b, h);
      if c.cells[x].Free? && x != h + n {
        RunsDisjoint(b, x, h);
      }
    }
  }

  lemma CutFree(s: Pages, b: Book, h: nat, j: nat, n: nat)
    requires Inv(s, b) && h < |b.cells| && b.cells[h].Free? && 0 < n < b.cells[h].len
    requires j < |b.lists[FREE]| && b.lists[FREE][j] == h
    ensures h + b.cells[h].len <= |s.pages| && h + n < |b.cells|
    ensures Inv(SetSlab(CutRecords(s, h, b.cells[h].len, n), h, Run(n)), Cut(b, h, j, n))
  {
    ListsCut(s, b, h, j, n);
    FreeDistinct(s, b);
    InsideRun(b, h);
    CutMembers(b, h, j, n);
    SplitTiled(b, h, n);
    var r, c := SetSlab(CutRecords(s, h, b.cells[h].len, n), h, Run(n)), Cut(b, h, j, n);
    TiledByParts(Split(b, h, n), c);
    CutApart(b, h, j, n);
    forall x | 0 <= x < |r.pages|
      ensures Record(r.pages[x], c, x)
    {
      CutRecord(s, b, h, j, n, x);
    }
    hide CutRecords, Members, Lists, Tiled, Apart, Record;
  }

  // ----- what the steps keep

  ghost function Range(h: nat, n: nat): (r: set<nat>)
    ensures |r| == n && forall i: nat :: i in r <==> h <= i < h + n
  {
    if n == 0 then {} else Range(h, n - 1) + {h + n - 1}
  }

  /** Runs in transit count as available; they are about to be handed out or to be listed. */
  predicate Spare(c: Cell) {
    c.Free? || c.Loose?
  }

  function LiveCell(c: Cell): Cell {
    if c.Used? || c.Slab? then c else Inside
  }

  /** Nothing allocated changes but at h. */
  ghost predicate SameLive(b: Book, c: Book, h: nat) {
    |c.cells| == |b.cells| && forall i {:trigger b.cells[i]} {:trigger c.cells[i]} | 0 <= i < |b.cells| && i != h ::
      LiveCell(c.cells[i]) == LiveCell(b.cells[i])
  }

  /** No run is in transit, but for one at h. */
  ghost predicate AtRest(b: Book, h: int) {
    forall i {:trigger b.cells[i]} | 0 <= i < |b.cells| && i != h :: !b.cells[i].Loose?
  }

  lemma AvailAt(b: Book, i: nat)
    requires Tiled(b)
    ensures i in Avail(b) <==> i < |b.own| && Owned(b, i) && Spare(b.cells[b.own[i]])
  {
    if i < |b.own| {
      assert Owned(b, i);
    }
  }

  lemma AvailSame(b: Book, c: Book)
    requires Tiled(b) && Tiled(c) && |c.own| == |b.own|
    requires forall i: nat | i < |b.own| && Owned(b, i) && Owned(c, i) :: Spare(b.cells[b.own[i]]) <==>
      Spare(c.cells[c.own[i]])
    ensures Avail(c) == Avail(b)
  {
    forall i: nat
      ensures i in Avail(c) <==> i in Avail(b)
    {
      AvailAt(b, i);
      AvailAt(c, i);
      if i < |b.own| {
        assert Owned(b, i) && Owned(c, i);
      }
    }
  }

  lemma AvailMerge(b: Book, h: nat)
    requires Tiled(b) && h < |b.cells| && b.cells[h].Loose? && h + b.cells[h].len < |b.cells|
    requires b.cells[h + b.cells[h].len].Loose?
    ensures Tiled(Merge(b, h)) && Avail(Merge(b, h)) == Avail(b)
  {
    MergeTiled(b, h);
    var c, j := Merge(b, h), h + b.cells[h].len;
    InsideRun(b, h);
    InsideRun(b, j);
    assert Spans(b, j);
    forall i: nat | i < |b.own| && Owned(b, i) && Owned(c, i)
      ensures Spare(b.cells[b.own[i]]) <==> Spare(c.cells[c.own[i]])
    {
      if j <= i < j + b.cells[j].len {
        assert b.own[i] == j;
      }
    }
    AvailSame(b, c);
  }

  lemma AvailCut(b: Book, h: nat, j: nat, n: nat)
    requires Tiled(b) && h < |b.cells| && b.cells[h].Free? && 0 < n < b.cells[h].len && h + n < |b.cells|
    requires FREE < |b.lists| && j < |b.lists[FREE]|
    ensures Tiled(Cut(b, h, j, n)) && Avail(Cut(b, h, j, n)) == Avail(b)
  {
    SplitTiled(b, h, n);
    TiledByParts(Split(b, h, n), Cut(b, h, j, n));
    InsideRun(b, h);
    AvailSame(b, Cut(b, h, j, n));
  }

  /** The book c differs from b in what starts at h, a run of the same length. */
  ghost predicate Retagged(b: Book, c: Book, h: nat) {
    Tiled(b) && Tiled(c) && h < |b.cells| && b.cells[h] != Inside && c.own == b.own
    && |c.cells| == |b.cells| && (forall i | 0 <= i < |b.cells| && i != h :: c.cells[i] == b.cells[i])
    && Len(c.cells[h]) == Len(b.cells[h])
  }

  lemma AvailRetagAt(b: Book, c: Book, h: nat, i: nat)
    requires Retagged(b, c, h)
    ensures var r := Range(h, Len(b.cells[h]));
      && (i in r ==> (i in Avail(b) <==> Spare(b.cells[h])) && (i in Avail(c) <==> Spare(c.cells[h])))
      && (i !in r ==> (i in Avail(b) <==> i in Avail(c)))
  {
    AvailAt(b, i);
    AvailAt(c, i);
    InsideRun(b, h);
    assert Spans(b, h);
    if i < |b.own| {
      assert Owned(b, i) && Owned(c, i);
    }
  }

  /** A run that changes its tag leaves or joins the available pages as a whole. */
  lemma AvailRetag(b: Book, c: Book, h: nat)
    requires Retagged(b, c, h)
    ensures Spare(b.cells[h]) == Spare(c.cells[h]) ==> Avail(c) == Avail(b)
    ensures !Spare(b.cells[h]) && Spare(c.cells[h]) ==> |Avail(c)| == |Avail(b)| + Len(b.cells[h])
    ensures Spare(b.cells[h]) && !Spare(c.cells[h]) ==> |Avail(c)| == |Avail(b)| - Len(b.cells[h])
  {
    var r := Range(h, Len(b.cells[h]));
    forall i: nat
      ensures i in r ==> (i in Avail(b) <==> Spare(b.cells[h])) && (i in Avail(c) <==> Spare(c.cells[h]))
      ensures i !in r ==> (i in Avail(b) <==> i in Avail(c))
    {
      AvailRetagAt(b, c, h, i);
    }
    hide Retagged, Avail, Range;
    if !Spare(b.cells[h]) && Spare(c.cells[h]) {
      assert Avail(c) == Avail(b) + r;
      assert Avail(b) * r == {};
    } else if Spare(b.cells[h]) && !Spare(c.cells[h]) {
      assert Avail(b) == Avail(c) + r;
      assert Avail(c) * r == {};
    } else {
      assert Avail(b) == Avail(c);
    }
  }

  // ----- joining a run in transit with its neighbours

  lemma UnlinkCommutes(s: Pages, list: nat, l: seq<nat>, j: nat, i: nat, w: Word)
    requires Listed(s, list, l) && j < |l| && i < |s.pages|
    ensures l[j] < |s.pages| && Unlinked(SetSlab(s, i, w), l[j]) == SetSlab(Unlinked(s, l[j]), i, w)
  {
    LinksInside(s, list, l, j);
  }

  /** The book after a free run that touches the run in transit is taken in. */
  function Absorbed(b: Book, low: nat, gone: nat, j: nat): Book
    requires gone < |b.cells| && b.cells[gone].Free? && FREE < |b.lists| && j < |b.lists[FREE]|
    requires low < |b.cells| && low + Len(b.cells[low]) < |b.cells|
  {
    Merge(Off(b, gone, j), low)
  }

  /** gone is the free run, low the lower of it and the run in transit, high the upper. */
  lemma AbsorbFree(s: Pages, b: Book, low: nat, high: nat, gone: nat, j: nat)
    requires Inv(s, b) && low < high < |b.cells| && high == low + Len(b.cells[low]) && b.cells[low] != Inside
    requires if gone == low then b.cells[low].Free? && b.cells[high].Loose?
             else gone == high && b.cells[high].Free? && b.cells[low].Loose?
    requires j < |b.lists[FREE]| && b.lists[FREE][j] == gone
    ensures var total := b.cells[low].len + b.cells[high].len;
      Inv(SetPage(Unlinked(SetSlab(s, low, Run(total)), gone), high, ZERO), Absorbed(b, low, gone, j))
  {
    var total := b.cells[low].len + b.cells[high].len;
    assert Record(s.pages[gone], b, gone);
    assert SetSlab(s, gone, Run(b.cells[gone].len)) == s;
    LoosenListed(s, b, gone, j);
    assert Listed(s, FREE, b.lists[FREE]);
    UnlinkCommutes(s, FREE, b.lists[FREE], j, low, Run(total));
    var d := Off(b, gone, j);
    assert d.cells[low].Loose? && d.cells[high].Loose? && d.cells[low].len + d.cells[high].len == total;
    assert high == low + d.cells[low].len && |d.cells| == |b.cells|;
    hide Unlinked, Off, Inv, Listed;
    MergeLoose(Unlinked(s, gone), d, low);
  }

  lemma AbsorbKeeps(b: Book, low: nat, high: nat, gone: nat, j: nat, h: nat)
    requires Tiled(b) && low < high < |b.cells| && high == low + Len(b.cells[low]) && b.cells[low] != Inside
    requires if gone == low then b.cells[low].Free? && b.cells[high].Loose? && h == high
             else gone == high && b.cells[high].Free? && b.cells[low].Loose? && h == low
    requires FREE < |b.lists| && j < |b.lists[FREE]| && AtRest(b, h)
    ensures var c := Absorbed(b, low, gone, j);
      && |c.cells| == |b.cells| && c.cells[low] == Loose(b.cells[low].len + b.cells[high].len) && AtRest(c, low)
      && SameLive(b, c, h) && LiveCell(c.cells[h]) == Inside && Tiled(c) && Avail(c) == Avail(b)
  {
    var d := Off(b, gone, j);
    var r := Retag(b, gone, Loose(Len(b.cells[gone])));
    RetagTiled(b, gone, Loose(Len(b.cells[gone])));
    TiledByParts(r, d);
    AvailRetag(b, r, gone);
    MergeTiled(d, low);
    AvailMerge(d, low);
  }

  /** After the join no free run touches on the side it was done. */
  lemma AbsorbEdges(b: Book, low: nat, high: nat, gone: nat, j: nat)
    requires Tiled(b) && Apart(b) && low < high < |b.cells| && high == low + Len(b.cells[low]) && b.cells[low] != Inside
    requires if gone == low then b.cells[low].Free? && b.cells[high].Loose?
             else gone == high && b.cells[high].Free? && b.cells[low].Loose?
    requires FREE < |b.lists| && j < |b.lists[FREE]|
    ensures var c := Absorbed(b, low, gone, j); var n := high + b.cells[high].len;
      && |c.cells| == |b.cells|
      && (gone == high ==> n < |b.cells| ==> !c.cells[n].Free?)
      && (gone == low ==> NoFreeBefore(c, low) && (n < |b.cells| ==> c.cells[n] == b.cells[n]))
  {
    assert Spans(b, high) && Spans(b, low);
    assert ApartAt(b, gone);
    forall g: nat | g < |b.cells| && b.cells[g].Free?
      ensures gone == low ==> g + b.cells[g].len != low
    {
      assert ApartAt(b, g);
    }
  }

  /** How the code tells a free run by its first record. */
  lemma FreeIsLinked(s: Pages, b: Book, i: nat)
    requires Inv(s, b) && i < |b.cells| && !b.cells[i].Loose?
    ensures i < |s.pages| && (b.cells[i].Free? <==> s.pages[i].kind == PAGE && s.pages[i].next != Null)
    ensures b.cells[i].Free? ==> s.pages[i].slab == Run(b.cells[i].len)
  {
    assert Record(s.pages[i], b, i);
    if b.cells[i].Free? {
      var j := OnList(s, b, i);
      LinksInside(s, FREE, b.lists[FREE], j);
    }
  }

  /** How the code finds the free run in front of a page, from the record before it. */
  lemma FreeBefore(s: Pages, b: Book, h: nat)
    requires Inv(s, b) && AtRest(b, h) && 0 < h < |b.cells| && b.cells[h] != Inside
    ensures |s.pages| == |b.cells|
    ensures var t, g := h - 1, b.own[h - 1];
      && g < h && b.cells[g] != Inside && g + Len(b.cells[g]) == h
      && (s.pages[t].kind == PAGE && s.pages[t].slab == Run(0) ==> b.cells[g].Free? && s.pages[t].prev == At(g))
      && (s.pages[t].kind != PAGE || s.pages[t].slab != Run(0) ==>
            (b.cells[g].Free? <==> s.pages[t].kind == PAGE && s.pages[t].next != Null) && (b.cells[g].Free? ==> g == t))
  {
    var t := h - 1;
    var g := b.own[t];
    assert Owned(b, t) && Record(s.pages[t], b, t);
    RunsDisjoint(b, g, h);
    HeadOwns(b, t);
    FreeIsLinked(s, b, t);
  }

  lemma NothingFreeBefore(b: Book, h: nat)
    requires Tiled(b) && h < |b.cells| && b.cells[h] != Inside
    requires h > 0 ==> b.own[h - 1] < |b.cells| && !b.cells[b.own[h - 1]].Free?
    ensures NoFreeBefore(b, h)
  {
    forall g: nat | g < |b.cells| && b.cells[g].Free?
      ensures g + b.cells[g].len != h
    {
      assert Spans(b, g);
    }
  }

  lemma FreeListed(s: Pages, b: Book)
    requires Lists(s, b) && Members(b)
    ensures Listed(s, FREE, b.lists[FREE])
  {
  }

  lemma PublishKeeps(s: Pages, b: Book, h: nat)
    requires Inv(s, b) && h < |b.cells| && b.cells[h].Loose? && AtRest(b, h)
    ensures Tiled(Published(b, h)) && Avail(Published(b, h)) == Avail(b)
    ensures SameLive(b, Published(b, h), h) && AtRest(Published(b, h), -1)
    ensures LiveCell(Published(b, h).cells[h]) == Inside
  {
    var r := Retag(b, h, Free(b.cells[h].len));
    RetagTiled(b, h, Free(b.cells[h].len));
    TiledByParts(r, Published(b, h));
    AvailRetag(b, r, h);
  }

  lemma LoosenUsedKeeps(b: Book, h: nat)
    requires Tiled(b) && AtRest(b, -1) && h < |b.cells| && b.cells[h].Used?
    ensures var c := Retag(b, h, Loose(b.cells[h].len));
      Tiled(c) && |Avail(c)| == |Avail(b)| + b.cells[h].len && SameLive(b, c, h) && AtRest(c, h)
  {
    RetagTiled(b, h, Loose(b.cells[h].len));
    AvailRetag(b, Retag(b, h, Loose(b.cells[h].len)), h);
  }

  lemma LoosenSlabKeeps(b: Book, h: nat, j: nat)
    requires Tiled(b) && AtRest(b, -1) && h < |b.cells| && b.cells[h].Slab? && 0 <= ListOf(b.cells[h]) < |b.lists|
    requires j < |b.lists[ListOf(b.cells[h])]|
    ensures var c := Off(b, h, j);
      Tiled(c) && |Avail(c)| == |Avail(b)| + 1 && SameLive(b, c, h) && AtRest(c, h)
  {
    var r := Retag(b, h, Loose(1));
    RetagTiled(b, h, Loose(1));
    TiledByParts(r, Off(b, h, j));
    AvailRetag(b, r, h);
  }

  lemma HeadInside(s: Pages, list: nat, l: seq<nat>)
    requires Listed(s, list, l)
    ensures s.heads[list] != Null && (s.heads[list].At? ==> l != [] && s.heads[list].page == l[0] < |s.pages|)
    ensures s.heads[list].Head? ==> l == [] && s.heads[list].list == list
  {
    if l != [] {
      assert LinkAt(s, list, l, 0);
    }
  }

  lemma ListedIsLinked(s: Pages, b: Book, i: nat)
    requires Inv(s, b) && i < |b.cells| && ListOf(b.cells[i]) >= 0
    ensures i < |s.pages| && s.pages[i].next != Null
  {
    var j := OnList(s, b, i);
    LinksInside(s, ListOf(b.cells[i]), b.lists[ListOf(b.cells[i])], j);
  }

  /** Pushed, write by write. */
  lemma PushInOrder(s: Pages, i: nat, r: Pages)
    requires i < |s.pages| && FREE < |s.heads|
    requires var t := SetPage(s, i, s.pages[i].(prev := Head(FREE), kind := PAGE));
      var u := SetPage(t, i, t.pages[i].(next := t.heads[FREE]));
      r == SetNext(SetPrev(u, u.pages[i].next, At(i), PAGE), Head(FREE), At(i))
    ensures r == Pushed(s, FREE, i)
  {
  }

  /** Replaced and the writes around it, write by write. */
  lemma CutInOrder(s: Pages, h: nat, len: nat, n: nat, t: Pages, u: Pages, v: Pages, r: Pages)
    requires 0 < n < len && h + len <= |s.pages|
    requires s.pages[h].prev != At(h + n) && s.pages[h].next != At(h + n)
    requires s.pages[h].prev != At(h) && s.pages[h].next != At(h) && s.pages[h].kind == PAGE
    requires t == SetPage(s, h + len - 1, s.pages[h + len - 1].(prev := At(h + n), kind := PAGE))
    requires u == SetPage(t, h + n, Page(Run(len - n), t.pages[h].next, t.pages[h].prev, t.pages[h].kind))
    requires v == SetNext(u, u.pages[h].prev, At(h + n)) && r == SetPrev(v, v.pages[h].next, At(h + n), PAGE)
    ensures r == CutRecords(s, h, len, n)
  {
  }

  lemma CutKeeps(b: Book, h: nat, j: nat, n: nat)
    requires Tiled(b) && AtRest(b, -1) && h < |b.cells| && b.cells[h].Free?
    requires 0 < n < b.cells[h].len && h + n < |b.cells|
    requires FREE < |b.lists| && j < |b.lists[FREE]|
    ensures var c := Cut(b, h, j, n);
      Tiled(c) && Avail(c) == Avail(b) && SameLive(b, c, h) && AtRest(c, h) && c.cells[h] == Loose(n)
  {
    AvailCut(b, h, j, n);
    InsideRun(b, h);
  }

  lemma OffKeeps(b: Book, h: nat, j: nat)
    requires Tiled(b) && AtRest(b, -1) && h < |b.cells| && b.cells[h].Free? && FREE < |b.lists| && j < |b.lists[FREE]|
    ensures var c := Off(b, h, j);
      Tiled(c) && Avail(c) == Avail(b) && SameLive(b, c, h) && AtRest(c, h) && c.cells[h] == Loose(b.cells[h].len)
  {
    var r := Retag(b, h, Loose(b.cells[h].len));
    RetagTiled(b, h, Loose(b.cells[h].len));
    TiledByParts(r, Off(b, h, j));
    AvailRetag(b, r, h);
  }

  lemma ClaimKeeps(b: Book, h: nat)
    requires Tiled(b) && AtRest(b, h) && h < |b.cells| && b.cells[h].Loose?
    ensures var c := Retag(b, h, Used(b.cells[h].len));
      Tiled(c) && |Avail(c)| == |Avail(b)| - b.cells[h].len && SameLive(b, c, h) && AtRest(c, -1)
  {
    RetagTiled(b, h, Used(b.cells[h].len));
    AvailRetag(b, Retag(b, h, Used(b.cells[h].len)), h);
  }

  lemma LinksOutside(s: Pages, b: Book, h: nat, j: nat, t: nat)
    requires Inv(s, b) && j < |b.lists[FREE]| && b.lists[FREE][j] == h && t < |b.cells| && ListOf(b.cells[t]) != FREE
    ensures h < |s.pages| && s.pages[h].prev != At(t) && s.pages[h].next != At(t)
  {
    var l := b.lists[FREE];
    assert Listed(s, FREE, l) && LinkAt(s, FREE, l, j);
    assert t !in l;
  }

  lemma SlabKept(s: Pages, list: nat, l: seq<nat>, j: nat)
    requires Listed(s, list, l) && j < |l|
    ensures l[j] < |s.pages| && Unlinked(s, l[j]).pages[l[j]].slab == s.pages[l[j]].slab
  {
    UnlinkedElsewhere(s, list, l, j);
  }

  // ----- pages of chunks

  predicate SlabFits(slot: nat, chunks: set<nat>, w: Word) {
    slot < SLOTS && chunks <= Below(Capacity(slot)) && SlabWord(slot, chunks, w)
  }

  /** A page with free chunks before and after. */
  lemma ChangeChunks(s: Pages, b: Book, i: nat, slot: nat, chunks: set<nat>, w: Word)
    requires Inv(s, b) && i < |b.cells| && b.cells[i].Slab? && b.cells[i].slot == slot && SlabFits(slot, chunks, w)
    requires ListOf(b.cells[i]) == slot && ListOf(Slab(slot, chunks)) == slot
    ensures Inv(SetSlab(s, i, w), Retag(b, i, Slab(slot, chunks)))
  {
    var r, c := SetSlab(s, i, w), Retag(b, i, Slab(slot, chunks));
    RetagTiled(b, i, Slab(slot, chunks));
    RetagApart(b, i, Slab(slot, chunks));
    ListsKept(s, r, b, c);
    InsideRun(b, i);
    hide Lists, Apart;
    forall x | 0 <= x < |r.pages|
      ensures Record(r.pages[x], c, x)
    {
      assert Record(s.pages[x], b, x) && Owned(b, x);
    }
  }

  /** The last free chunk is taken: the page leaves its list. */
  lemma TakeLast(s: Pages, b: Book, i: nat, j: nat, slot: nat, w: Word)
    requires Inv(s, b) && i < |b.cells| && b.cells[i].Slab?
    requires b.cells[i].slot == slot && SlabFits(slot, Below(Capacity(slot)), w)
    requires ListOf(b.cells[i]) == slot && j < |b.lists[slot]| && b.lists[slot][j] == i
    ensures Inv(SetPage(Unlinked(SetSlab(s, i, w), i), i, Page(w, Null, Null, KindOf(slot))),
                OffTo(b, i, j, Slab(slot, Below(Capacity(slot)))))
  {
    var full := Slab(slot, Below(Capacity(slot)));
    var t, c := Unlinked(SetSlab(s, i, w), i), OffTo(b, i, j, full);
    var r := SetPage(t, i, Page(w, Null, Null, KindOf(slot)));
    ListsOff(s, b, i, j, full, w);
    RetagTiled(b, i, full);
    RetagApart(b, i, full);
    TiledByParts(Retag(b, i, full), c);
    ListsKept(t, r, c, c);
    InsideRun(b, i);
    hide Lists, Members, Spans, Unlinked;
    forall x | 0 <= x < |r.pages|
      ensures Record(r.pages[x], c, x)
    {
      assert Record(s.pages[x], b, x) && Owned(b, x);
    }
    assert Apart(c) by {
      forall x: nat | x < |c.cells|
        ensures ApartAt(c, x)
      {
        assert ApartAt(Retag(b, i, full), x);
      }
    }
  }

  /** A full page, or one just allocated, goes in front of the list of its slot with free chunks. */
  lemma PutSlab(s: Pages, b: Book, i: nat, slot: nat, chunks: set<nat>, w: Word)
    requires Inv(s, b) && i < |b.cells| && ListOf(b.cells[i]) == -1 && SlabFits(slot, chunks, w)
    requires b.cells[i] == Used(1) || b.cells[i].Slab?
    requires ListOf(Slab(slot, chunks)) == slot
    ensures slot < |s.heads| && Inv(SetSlab(Pushed(s, slot, i), i, w), On(b, slot, i, Slab(slot, chunks)))
  {
    var cell := Slab(slot, chunks);
    var t, c := Pushed(s, slot, i), On(b, slot, i, cell);
    var r := SetSlab(t, i, w);
    ListsOn(s, b, slot, i, cell);
    RetagTiled(b, i, cell);
    RetagApart(b, i, cell);
    TiledByParts(Retag(b, i, cell), c);
    forall x | 0 <= x < |r.pages|
      ensures Record(r.pages[x], c, x)
    {
      PutRecord(s, b, i, slot, chunks, w, x);
    }
    assert Apart(c) by {
      forall x: nat | x < |c.cells|
        ensures ApartAt(c, x)
      {
        assert ApartAt(Retag(b, i, cell), x);
      }
    }
    hide Pushed, Apart, Tiled, Record;
    ListsKept(t, r, c, c);
  }

  lemma PutRecord(s: Pages, b: Book, i: nat, slot: nat, chunks: set<nat>, w: Word, x: nat)
    requires Inv(s, b) && i < |b.cells| && ListOf(b.cells[i]) == -1 && SlabFits(slot, chunks, w)
    requires b.cells[i] == Used(1) || b.cells[i].Slab?
    requires ListOf(Slab(slot, chunks)) == slot && x < |b.cells|
    ensures slot < |s.heads|
    ensures Record(SetSlab(Pushed(s, slot, i), i, w).pages[x], On(b, slot, i, Slab(slot, chunks)), x)
  {
    PushedFields(s, b, slot, i);
    InsideRun(b, i);
    assert Record(s.pages[x], b, x) && Owned(b, x);
    hide Lists, Members, Spans, Pushed;
  }

  /** None of these changes moves a page into or out of the free runs. */
  lemma SlabKeeps(b: Book, c: Book, i: nat)
    requires Tiled(b) && AtRest(b, -1) && i < |b.cells| && !Spare(b.cells[i]) && Len(b.cells[i]) == 1
    requires i < |c.cells| && c.cells[i].Slab?
    requires c.own == b.own && c.cells == b.cells[i := c.cells[i]]
    ensures Tiled(c) && Avail(c) == Avail(b) && SameLive(b, c, i) && AtRest(c, -1)
  {
    RetagTiled(b, i, c.cells[i]);
    TiledByParts(Retag(b, i, c.cells[i]), c);
    AvailRetag(b, c, i);
  }

  /** Everything Absorb needs before it writes. */
  lemma AbsorbReady(s: Pages, b: Book, low: nat, high: nat, gone: nat, h: nat) returns (j: nat)
    requires Inv(s, b) && AtRest(b, h) && low < high < |b.cells|
    requires b.cells[low] != Inside && high == low + Len(b.cells[low])
    requires if gone == low then b.cells[low].Free? && b.cells[high].Loose? && h == high
             else gone == high && b.cells[high].Free? && b.cells[low].Loose? && h == low
    ensures |b.lists| == SLOTS + 1 && j < |b.lists[FREE]| && b.lists[FREE][j] == gone && |s.pages| == |b.cells|
    ensures s.pages[low].slab == Run(b.cells[low].len) && s.pages[high].slab == Run(b.cells[high].len)
    ensures var total := b.cells[low].len + b.cells[high].len;
      Listed(SetSlab(s, low, Run(total)), FREE, b.lists[FREE])
      && Inv(SetPage(Unlinked(SetSlab(s, low, Run(total)), gone), high, ZERO), Absorbed(b, low, gone, j))
    ensures var c, n := Absorbed(b, low, gone, j), high + b.cells[high].len;
      && |c.cells| == |b.cells| && c.cells[low] == Loose(b.cells[low].len + b.cells[high].len) && AtRest(c, low)
      && SameLive(b, c, h) && LiveCell(c.cells[h]) == Inside && Tiled(b) && Tiled(c) && Avail(c) == Avail(b)
      && (gone == high ==> n < |b.cells| ==> !c.cells[n].Free?)
      && (gone == low ==> NoFreeBefore(c, low) && (n < |b.cells| ==> c.cells[n] == b.cells[n]))
  {
    j := OnList(s, b, gone);
    assert Record(s.pages[low], b, low) && Record(s.pages[high], b, high);
    var t := SetSlab(s, low, Run(b.cells[low].len + b.cells[high].len));
    ListsKept(s, t, b, b);
    FreeListed(t, b);
    hide Record, SameLinks, Linked, Listed;
    AbsorbFree(s, b, low, high, gone, j);
    AbsorbKeeps(b, low, high, gone, j, h);
    AbsorbEdges(b, low, high, gone, j);
    hide Absorbed, Inv, Unlinked;
  }
}
