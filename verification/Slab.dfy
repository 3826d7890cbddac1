/** The slab pool: page runs, pages of chunks, their bitmaps and counters, changed in place. */
module Slab {
  import opened SlabPages
  import opened SlabChunks

  /** The records of the pages, which are one free run, and the list heads. */
  method FirstRecords(count: nat) returns (pages: array<Page>, heads: array<Ptr>)
    requires count > 0
    ensures fresh(pages) && fresh(heads) && Pages(pages[..], heads[..]) == FirstPages(count)
  {
    pages := new Page[count](i => if i == 0 then Page(Run(count), Head(FREE), Head(FREE), PAGE) else ZERO);
    heads := new Ptr[SLOTS + 1](k requires k >= 0 => if k == FREE then At(0) else Head(k));
  }

  method FirstCounters(count: nat) returns (maps: array<Bitmap>, stats: array<Stat>)
    ensures fresh(maps) && fresh(stats)
    ensures maps[..] == seq(count, i => []) && stats[..] == seq(SLOTS, k => Stat(0, 0, 0, 0))
  {
    maps := new Bitmap[count](i => []);
    stats := new Stat[SLOTS](i => Stat(0, 0, 0, 0));
  }

  /** Given back, turned down, or decided by a record that is none. */
  datatype Freed = Given | Refused | Unread

  class Pool {
    const pages: array<Page>
    const heads: array<Ptr>
    const start: nat
    const size: nat
    const maps: array<Bitmap>
    const stats: array<Stat>
    var pfree: int
    ghost var book: Book

    /** The cleared records behind those of the pages: none, or one when alignment costs a page. No method
        writes to them. */
    const spare: seq<Page>

    /** ngx_slab_init: slots is the address behind the pool header, where the list heads start, end the end
        of the zone, which has room for a page. The heads, the counters and the page records come first, then,
        aligned, the pages, which start free as one run. */
    constructor (slots: nat, end: nat)
      requires PageCount(slots, end) > 0
      ensures Valid() && fresh(pages) && fresh(heads) && fresh(maps) && fresh(stats)
      ensures start == FirstPage(slots, end) && start % PAGE_SIZE == 0 && start + size == end
      ensures |book.cells| == pages.Length == PageCount(slots, end) && Readable() == RecordCount(slots, end)
      ensures RecordsAt(slots) + Readable() * PAGE_RECORD <= start && PAGE_SIZE * |book.cells| <= size
      ensures book.cells[0] == Cell.Free(|book.cells|) && forall a: int :: !Live(book, a)
    {
      hide RecordCount, FirstPage, PageCount, Aligned;
      LayoutIs(slots, end);
      var p := slots + SLOTS * PAGE_RECORD + SLOTS * STAT_RECORD;
      var count: nat := (end - p) / (PAGE_SIZE + PAGE_RECORD);
      var first := Aligned(p + count * PAGE_RECORD);
      var m: int := count - (end - first) / PAGE_SIZE;
      spare := [];
      if m > 0 {
        count := count - m;
        spare := seq(m, _ => ZERO);
      }
      start := first;
      size := end - first;
      var records, lists := FirstRecords(count);
      pages, heads := records, lists;
      var bitmaps, counters := FirstCounters(count);
      maps, stats := bitmaps, counters;
      pfree := count;
      book := FirstBook(count);
      new;
      hide Inv, AtRest, ChunksOK, MapsOK, StatsOK, Live, FirstBook, FirstPages;
      FirstInv(count);
      FirstRest(count);
    }

    /** How many records behind pool->pages are cleared memory or records of pages. */
    function Readable(): nat
    {
      pages.Length + |spare|
    }

    ghost function State(): Pages
      reads pages, heads
    {
      Pages(pages[..], heads[..])
    }

    // ----- links

    method WriteNext(p: Ptr, q: Ptr)
      requires p != Null && (p.At? ==> p.page < pages.Length) && (p.Head? ==> p.list < heads.Length)
      modifies pages, heads
      ensures State() == SetNext(old(State()), p, q)
    {
      match p
      case At(i) => pages[i] := pages[i].(next := q);
      case Head(k) => heads[k] := q;
    }

    method WritePrev(p: Ptr, q: Ptr, kind: Kind)
      requires p != Null && (p.At? ==> p.page < pages.Length) && (p.Head? ==> p.list < heads.Length)
      modifies pages
      ensures State() == SetPrev(old(State()), p, q, kind)
    {
      match p
      case At(i) => pages[i] := pages[i].(prev := q, kind := kind);
      case Head(_) =>
    }

    method Unlink(i: nat, ghost list: nat, ghost l: seq<nat>, ghost j: nat)
      requires Listed(State(), list, l) && j < |l| && l[j] == i
      modifies pages, heads
      ensures i < pages.Length && State() == Unlinked(old(State()), i)
    {
      LinksInside(State(), list, l, j);
      var prev := pages[i].prev;
      WriteNext(prev, pages[i].next);
      WritePrev(pages[i].next, pages[i].prev, pages[i].kind);
    }

    method WritePage(i: nat, page: Page)
      requires i < pages.Length
      modifies pages
      ensures State() == SetPage(old(State()), i, page)
    {
      pages[i] := page;
    }

    method FillPages(lo: nat, hi: nat, page: Page)
      requires lo <= hi <= pages.Length
      modifies pages
      ensures State() == Fill(old(State()), lo, hi, page)
    {
      var i := lo;
      while i < hi
        invariant lo <= i <= hi
        invariant forall x | 0 <= x < pages.Length :: pages[x] == if lo <= x < i then page else old(pages[x])
      {
        pages[i] := page;
        i := i + 1;
      }
    }

    // ----- runs of pages

    /** Two runs that touch, one free and one in transit, become one in transit. */
    method Absorb(low: nat, high: nat, gone: nat, ghost h: nat)
      requires Inv(State(), book) && AtRest(book, h) && low < high < |book.cells|
      requires book.cells[low] != Inside && high == low + Len(book.cells[low])
      requires if gone == low then book.cells[low].Free? && book.cells[high].Loose? && h == high
               else gone == high && book.cells[high].Free? && book.cells[low].Loose? && h == low
      modifies pages, heads, `book
      ensures Inv(State(), book) && |book.cells| == |old(book).cells| && AtRest(book, low)
      ensures book.cells[low] == Loose(old(book).cells[low].len + old(book).cells[high].len)
      ensures SameLive(old(book), book, h) && LiveCell(book.cells[h]) == Inside
      ensures Tiled(old(book)) && Avail(book) == Avail(old(book))
      ensures var n := high + old(book).cells[high].len;
        && (gone == high ==> n < |book.cells| ==> !book.cells[n].Free?)
        && (gone == low ==> NoFreeBefore(book, low) && (n < |book.cells| ==> book.cells[n] == old(book).cells[n]))
    {
      hide Inv, Tiled, Spans, AtRest, SameLive, NoFreeBefore, Listed, Absorbed, Avail;
      ghost var b, s := book, State();
      ghost var j := AbsorbReady(s, b, low, high, gone, h);
      WritePage(low, pages[low].(slab := Run(pages[low].slab.n + pages[high].slab.n)));
      Unlink(gone, FREE, b.lists[FREE], j);
      hide Unlinked;
      WritePage(high, ZERO);
      book := Absorbed(b, low, gone, j);
    }

    /** The run in transit at h takes in the free run behind it. */
    method JoinNext(h: nat, left: nat) returns (rest: nat)
      requires Inv(State(), book) && h < |book.cells| && book.cells[h].Loose? && AtRest(book, h)
      requires left == book.cells[h].len - 1
      modifies pages, heads, `book
      ensures Inv(State(), book) && |book.cells| == |old(book).cells| && book.cells[h].Loose? && AtRest(book, h)
      ensures rest == book.cells[h].len - 1
      ensures h + book.cells[h].len < |book.cells| ==> !book.cells[h + book.cells[h].len].Free?
      ensures SameLive(old(book), book, h) && Tiled(old(book)) && Avail(book) == Avail(old(book))
    {
      rest := left;
      ghost var b, s := book, State();
      assert Spans(b, h) && Record(s.pages[h], b, h);
      var join := h + pages[h].slab.n;
      if join < pages.Length {
        NextIsHead(b, h);
        FreeIsLinked(s, b, join);
        assert Spans(b, join);
        hide Inv, Tiled, Spans, AtRest, SameLive;
        if pages[join].kind == PAGE {
          if pages[join].next != Null {
            rest := rest + pages[join].slab.n;
            Absorb(h, join, join, h);
          }
        }
      }
    }

    /** The free run in front of the run in transit at h takes it in. */
    method JoinPrev(h: nat, left: nat) returns (page: nat, rest: nat)
      requires Inv(State(), book) && h < |book.cells| && book.cells[h].Loose? && AtRest(book, h)
      requires left == book.cells[h].len - 1
      requires h + book.cells[h].len < |book.cells| ==> !book.cells[h + book.cells[h].len].Free?
      modifies pages, heads, `book
      ensures Inv(State(), book) && |book.cells| == |old(book).cells| && page < |book.cells|
      ensures book.cells[page].Loose? && AtRest(book, page) && rest == book.cells[page].len - 1
      ensures page + book.cells[page].len < |book.cells| ==> !book.cells[page + book.cells[page].len].Free?
      ensures NoFreeBefore(book, page)
      ensures SameLive(old(book), book, h) && LiveCell(book.cells[h]) == Inside
      ensures Tiled(old(book)) && Avail(book) == Avail(old(book))
    {
      page, rest := h, left;
      ghost var b, s := book, State();
      if h > 0 {
        FreeBefore(s, b, h);
        var join := h - 1;
        if pages[join].kind == PAGE {
          if pages[join].slab == Run(0) {
            join := pages[join].prev.page;
          }
          FreeIsLinked(s, b, join);
          if pages[join].next != Null {
            hide Inv, Tiled, Spans, AtRest, SameLive, NoFreeBefore;
            rest := rest + pages[join].slab.n;
            Absorb(join, h, join, h);
            page := join;
            return;
          }
        }
      }
      NothingFreeBefore(b, h);
    }

    /** The first part of ngx_slab_free_pages: an allocated run, or a page of chunks on its list, is emptied. */
    method Loosen(h: nat, n: nat)
      requires Inv(State(), book) && AtRest(book, -1) && h < |book.cells|
      requires book.cells[h] == Used(n) || (n == 1 && book.cells[h].Slab? && ListOf(book.cells[h]) >= 0)
      modifies pages, heads, `book
      ensures Inv(State(), book) && |book.cells| == |old(book).cells| && AtRest(book, h) && book.cells[h] == Loose(n)
      ensures n >= 1
      ensures SameLive(old(book), book, h) && Tiled(old(book)) && |Avail(book)| == |Avail(old(book))| + n
    {
      ghost var b, s := book, State();
      ghost var w := Run(n);
      assert Spans(b, h) && Record(s.pages[h], b, h);
      WritePage(h, pages[h].(slab := Run(n)));
      ghost var t := State();
      if n > 1 {
        FillPages(h + 1, h + n, ZERO);
      }
      assert State() == Fill(t, h + 1, h + n, ZERO);
      if pages[h].next != Null {
        assert State() == t;
        ghost var j := OnList(s, b, h);
        LoosenListed(s, b, h, j);
        LoosenSlabKeeps(b, h, j);
        hide Inv, Tiled, Spans, AtRest, SameLive;
        ListKept(s, t, ListOf(b.cells[h]), b.lists[ListOf(b.cells[h])]);
        Unlink(h, ListOf(b.cells[h]), b.lists[ListOf(b.cells[h])], j);
        book := Off(b, h, j);
      } else {
        if b.cells[h].Slab? {
          ListedIsLinked(s, b, h);
        }
        LoosenUsed(s, b, h);
        LoosenUsedKeeps(b, h);
        book := Retag(b, h, Loose(n));
      }
    }

    /** The last part: the run gets its back pointer and goes in front of the free list. */
    method PutFree(page: nat, rest: nat)
      requires Inv(State(), book) && AtRest(book, page) && page < |book.cells| && book.cells[page] == Loose(rest + 1)
      requires NoFreeBefore(book, page) && (page + rest + 1 < |book.cells| ==> !book.cells[page + rest + 1].Free?)
      modifies pages, heads, `book
      ensures Inv(State(), book) && AtRest(book, -1) && LiveCell(book.cells[page]) == Inside
      ensures SameLive(old(book), book, page) && Tiled(old(book)) && Avail(book) == Avail(old(book))
    {
      ghost var b, s := book, State();
      assert Spans(b, page);
      PublishLoose(s, b, page);
      PublishKeeps(s, b, page);
      FreeListed(s, b);
      HeadInside(s, FREE, b.lists[FREE]);
      hide Inv, Listed;
      if rest > 0 {
        WritePage(page + rest, pages[page + rest].(prev := At(page), kind := PAGE));
      }
      ghost var t := State();
      assert t == if rest > 0 then Tail(s, page, rest + 1, page) else s;
      WritePage(page, pages[page].(prev := Head(FREE), kind := PAGE));
      WritePage(page, pages[page].(next := heads[FREE]));
      WritePrev(pages[page].next, At(page), PAGE);
      WriteNext(Head(FREE), At(page));
      PushInOrder(t, page, State());
      book := Published(b, page);
    }

    /** ngx_slab_free_pages: an allocated run, or the page of chunks whose last chunk went, becomes free and
        is joined with the free runs it touches. */
    method FreePages(h: nat, n: nat)
      requires Inv(State(), book) && AtRest(book, -1) && h < |book.cells|
      requires book.cells[h] == Used(n) || (n == 1 && book.cells[h].Slab? && ListOf(book.cells[h]) >= 0)
      modifies pages, heads, `book, `pfree
      ensures Inv(State(), book) && AtRest(book, -1)
      ensures SameLive(old(book), book, h) && LiveCell(book.cells[h]) == Inside
      ensures Tiled(old(book)) && |Avail(book)| == |Avail(old(book))| + n && pfree == old(pfree) + n
    {
      hide Inv, Tiled, AtRest, NoFreeBefore;
      pfree := pfree + n;
      Loosen(h, n);
      var rest := JoinNext(h, n - 1);
      var page;
      page, rest := JoinPrev(h, rest);
      PutFree(page, rest);
    }

    /** The rest of a longer free run takes its place on the free list. The length of what is cut off is not
        written yet; s is the state in which it would be. */
    method SplitRun(h: nat, n: nat, ghost j: nat) returns (ghost s: Pages)
      requires Inv(State(), book) && AtRest(book, -1) && h < |book.cells| && book.cells[h].Free?
      requires 0 < n < book.cells[h].len
      requires j < |book.lists[FREE]| && book.lists[FREE][j] == h
      modifies pages, heads, `book
      ensures h < |State().pages| && s == SetSlab(State(), h, Run(n)) && Inv(s, book) && AtRest(book, h)
      ensures book.cells[h] == Loose(n)
      ensures SameLive(old(book), book, h) && Tiled(old(book)) && Avail(book) == Avail(old(book))
    {
      ghost var b, o := book, State();
      FreeListed(o, b);
      LinksInside(o, FREE, b.lists[FREE], j);
      FreeIsLinked(o, b, h);
      assert Spans(b, h);
      var len := pages[h].slab.n;
      InsideRun(b, h);
      LinksOutside(o, b, h, j, h + n);
      CutFree(o, b, h, j, n);
      CutKeeps(b, h, j, n);
      hide Inv, Tiled, Spans, AtRest, SameLive, Listed;
      WritePage(h + len - 1, pages[h + len - 1].(prev := At(h + n), kind := PAGE));
      ghost var t := State();
      WritePage(h + n, Page(Run(len - n), pages[h].next, pages[h].prev, pages[h].kind));
      ghost var u := State();
      WriteNext(pages[h].prev, At(h + n));
      ghost var v := State();
      WritePrev(pages[h].next, At(h + n), PAGE);
      CutInOrder(o, h, len, n, t, u, v, State());
      book := Cut(b, h, j, n);
      s := SetSlab(State(), h, Run(n));
    }

    method TakeRun(h: nat, ghost j: nat) returns (ghost s: Pages)
      requires Inv(State(), book) && AtRest(book, -1) && h < |book.cells| && book.cells[h].Free?
      requires j < |book.lists[FREE]| && book.lists[FREE][j] == h
      modifies pages, heads, `book
      ensures h < |State().pages| && s == SetSlab(State(), h, Run(old(book).cells[h].len))
      ensures Inv(s, book) && AtRest(book, h)
      ensures book.cells[h] == Loose(old(book).cells[h].len)
      ensures SameLive(old(book), book, h) && Tiled(old(book)) && Avail(book) == Avail(old(book))
    {
      ghost var b, o := book, State();
      FreeListed(o, b);
      FreeIsLinked(o, b, h);
      LoosenListed(o, b, h, j);
      OffKeeps(b, h, j);
      assert SetSlab(o, h, Run(b.cells[h].len)) == o;
      SlabKept(o, FREE, b.lists[FREE], j);
      hide Inv, Tiled, AtRest, SameLive;
      Unlink(h, FREE, b.lists[FREE], j);
      book := Off(b, h, j);
      s := State();
      assert s == SetSlab(State(), h, Run(b.cells[h].len));
    }

    /** The run that was cut off or taken is marked as allocated. */
    method ClaimRun(h: nat, n: nat, ghost s: Pages)
      requires h < |State().pages| && s == SetSlab(State(), h, Run(n)) && Inv(s, book) && AtRest(book, h)
      requires h < |book.cells| && book.cells[h] == Loose(n)
      modifies pages, `book, `pfree
      ensures Inv(State(), book) && AtRest(book, -1) && |book.cells| == |old(book).cells| && book.cells[h] == Used(n)
      ensures SameLive(old(book), book, h)
      ensures Tiled(old(book)) && |Avail(book)| == |Avail(old(book))| - n && pfree == old(pfree) - n
    {
      ghost var b := book;
      assert Spans(b, h);
      ClaimLoose(s, b, h);
      ClaimKeeps(b, h);
      ghost var o := State();
      hide Inv, Tiled, Spans, AtRest, SameLive;
      WritePage(h, Page(Start(n), Null, Null, PAGE));
      pfree := pfree - n;
      FillPages(h + 1, h + n, TAKEN);
      assert State() == Claim(s, h, n);
      book := Retag(b, h, Used(n));
    }

    /** ngx_slab_alloc_pages: the first run on the free list that is long enough, cut to size. */
    method AllocPages(n: nat) returns (ok: bool, page: nat)
      requires Inv(State(), book) && AtRest(book, -1) && n > 0
      modifies pages, heads, `book, `pfree
      ensures Inv(State(), book) && AtRest(book, -1) && Tiled(old(book))
      ensures ok <==> exists h :: 0 <= h < |old(book).cells| && old(book).cells[h].Free? && old(book).cells[h].len >= n
      ensures ok ==>
        && |book.cells| == |old(book).cells| && page < |book.cells| && book.cells[page] == Used(n)
        && SameLive(old(book), book, page) && old(book).cells[page].Free?
        && |Avail(book)| == |Avail(old(book))| - n && pfree == old(pfree) - n
      ensures !ok ==> book == old(book) && State() == old(State()) && pfree == old(pfree)
    {
      ghost var b, l := book, book.lists[FREE];
      ghost var j := 0;
      FreeListed(State(), b);
      HeadInside(State(), FREE, l);
      var p := heads[FREE];
      while p != Head(FREE)
        invariant j <= |l| && p == Nth(l, j, FREE) && State() == old(State()) && book == b && pfree == old(pfree)
        invariant forall a | 0 <= a < j :: l[a] < |b.cells| && (b.cells[l[a]].Free? ==> b.cells[l[a]].len < n)
        decreases |l| - j
      {
        page := p.page;
        FreeListed(State(), b);
        LinksInside(State(), FREE, l, j);
        assert l[j] in b.lists[FREE];
        FreeIsLinked(State(), b, page);
        if pages[page].slab.n >= n {
          ghost var s;
          ok := true;
          assert 0 <= page < |b.cells| && b.cells[page].Free? && b.cells[page].len >= n;
          hide Inv, Tiled, AtRest, SameLive;
          if pages[page].slab.n > n {
            s := SplitRun(page, n, j);
          } else {
            s := TakeRun(page, j);
          }
          ClaimRun(page, n, s);
          return;
        }
        assert LinkAt(State(), FREE, l, j);
        p := pages[page].next;
        j := j + 1;
      }
      ok, page := false, 0;
      forall h | 0 <= h < |b.cells| && b.cells[h].Free?
        ensures b.cells[h].len < n
      {
        var a := OnList(State(), b, h);
        assert l[a] == h;
      }
    }

    // ----- chunks

    /** The page of chunks that got its last chunk taken leaves its list. */
    method LeaveList(page: nat, slot: nat, ghost b: Book, ghost s: Pages, ghost w: Word)
      requires Inv(s, b) && page < |b.cells| && b.cells[page].Slab? && b.cells[page].slot == slot
      requires page < |s.pages| && State() == SetSlab(s, page, w) && SlabFits(slot, Below(Capacity(slot)), w)
      requires ListOf(b.cells[page]) == slot && AtRest(b, -1)
      modifies pages, heads, `book
      ensures Inv(State(), book) && AtRest(book, -1) && |book.cells| == |b.cells|
      ensures book.cells[page] == Slab(slot, Below(Capacity(slot)))
      ensures SameLive(b, book, page) && Tiled(b) && Avail(book) == Avail(b)
    {
      var kind := if slot < 3 then SMALL else if slot == 3 then EXACT else BIG;
      ghost var j := OnList(s, b, page);
      ghost var c := OffTo(b, page, j, Slab(slot, Below(Capacity(slot))));
      TakeLast(s, b, page, j, slot, w);
      SlabKeeps(b, c, page);
      assert Listed(s, slot, b.lists[slot]);
      hide Inv, AtRest, SameLive, Listed;
      ListKept(s, State(), slot, b.lists[slot]);
      Unlink(page, slot, b.lists[slot], j);
      ghost var t := State();
      assert t.pages[page].slab == w by {
        SlabKept(SetSlab(s, page, w), slot, b.lists[slot], j);
      }
      pages[page] := pages[page].(next := Null);
      pages[page] := pages[page].(prev := Null, kind := kind);
      assert State() == SetPage(t, page, Page(w, Null, Null, kind));
      book := c;
    }

    /** One more chunk of a page is taken. */
    ghost predicate Took(b: Book, c: Book, page: nat, slot: nat, j: nat) {
      page < |b.cells| == |c.cells| && b.cells[page].Slab? && j < Capacity(slot) && j !in b.cells[page].chunks
      && c.cells[page] == Slab(slot, b.cells[page].chunks + {j})
      && AtRest(c, -1) && SameLive(b, c, page) && Tiled(b) && Tiled(c) && Avail(c) == Avail(b)
    }

    /** The first clear bit of a bitmap that is kept in the record is set. The two kinds differ in where the
        bitmap lies in the word. The loop always finds a bit: a listed page is never busy. */
    method TakeBit(page: nat, slot: nat) returns (i: nat)
      requires Inv(State(), book) && AtRest(book, -1) && page < |book.cells|
      requires book.cells[page].Slab? && book.cells[page].slot == slot >= 3 && ListOf(book.cells[page]) == slot
      modifies pages, heads, `book
      ensures Inv(State(), book) && Took(old(book), book, page, slot, i)
    {
      ghost var b, s := book, State();
      ghost var chunks := b.cells[page].chunks;
      assert Record(s.pages[page], b, page);
      var bits := BitsOf(pages[page].slab);
      i := 0;
      while i < Capacity(slot)
        invariant i <= Capacity(slot) && forall x: nat | x < i :: x in bits
        invariant State() == s && book == b
      {
        if i in bits {
          i := i + 1;
          continue;
        }
        ghost var c := Slab(slot, chunks + {i});
        var w := WithBits(pages[page].slab, bits + {i});
        WritePage(page, pages[page].(slab := w));
        assert State() == SetSlab(s, page, w);
        if bits + {i} == Below(Capacity(slot)) {
          LeaveList(page, slot, b, s, w);
        } else {
          ChangeChunks(s, b, page, slot, chunks + {i}, w);
          SlabKeeps(b, Retag(b, page, c), page);
          book := Retag(b, page, c);
        }
        return;
      }
      NotFull(slot, chunks);
      assert false;
    }

    /** The same with a bitmap at the start of the page, word by word. */
    method TakeSmall(page: nat, slot: nat) returns (chunk: nat)
      requires Inv(State(), book) && AtRest(book, -1) && page < |book.cells| && page < maps.Length
      requires book.cells[page].Slab? && book.cells[page].slot == slot < 3 && ListOf(book.cells[page]) == slot
      requires MapOK(maps[page], slot, book.cells[page].chunks) && WordsOK(maps[page])
      modifies pages, heads, maps, `book
      ensures Inv(State(), book) && Took(old(book), book, page, slot, chunk)
      ensures MapOK(maps[page], slot, book.cells[page].chunks) && WordsOK(maps[page])
      ensures forall x | 0 <= x < maps.Length && x != page :: maps[x] == old(maps[x])
    {
      ghost var b, s := book, State();
      ghost var chunks := b.cells[page].chunks;
      assert Record(s.pages[page], b, page);
      var bitmap := maps[page];
      var words := Capacity(slot) / WORD;
      FullByWords(bitmap, slot, chunks);
      var n := 0;
      while n < words
        invariant n <= words && forall x | 0 <= x < n :: bitmap[x] == Below(WORD)
      {
        if bitmap[n] != Below(WORD) {
          var i := 0;
          while i < WORD
            invariant i <= WORD && forall x: nat | x < i :: x in bitmap[n]
          {
            if i in bitmap[n] {
              i := i + 1;
              continue;
            }
            chunk := SetSmall(page, slot, n, i);
            return;
          }
          assert false;
        }
        n := n + 1;
      }
      assert false;
    }

    /** The record of a small page after a chunk was taken. */
    method SettleSmall(page: nat, slot: nat, ghost chunk: nat, busy: bool)
      requires Inv(State(), book) && AtRest(book, -1) && page < |book.cells|
      requires book.cells[page].Slab? && book.cells[page].slot == slot < 3 && ListOf(book.cells[page]) == slot
      requires chunk < Capacity(slot) && chunk !in book.cells[page].chunks
      requires busy <==> book.cells[page].chunks + {chunk} == Below(Capacity(slot))
      modifies pages, heads, `book
      ensures Inv(State(), book) && Took(old(book), book, page, slot, chunk)
    {
      ghost var b, s := book, State();
      ghost var chunks := b.cells[page].chunks;
      assert Record(s.pages[page], b, page);
      ghost var w := s.pages[page].slab;
      assert SetSlab(s, page, w) == s;
      if busy {
        LeaveList(page, slot, b, s, w);
      } else {
        ghost var c := Slab(slot, chunks + {chunk});
        ChangeChunks(s, b, page, slot, chunks + {chunk}, w);
        SlabKeeps(b, Retag(b, page, c), page);
        book := Retag(b, page, c);
      }
    }

    method BusyFrom(bitmap: Bitmap, from: nat) returns (busy: bool)
      requires from <= |bitmap|
      ensures busy <==> forall x | from <= x < |bitmap| :: bitmap[x] == Below(WORD)
    {
      var n := from;
      while n < |bitmap|
        invariant from <= n <= |bitmap| && forall x | from <= x < n :: bitmap[x] == Below(WORD)
      {
        if bitmap[n] != Below(WORD) {
          return false;
        }
        n := n + 1;
      }
      return true;
    }

    method SetSmall(page: nat, slot: nat, n: nat, i: nat) returns (chunk: nat)
      requires Inv(State(), book) && AtRest(book, -1) && page < |book.cells| && page < maps.Length
      requires book.cells[page].Slab? && book.cells[page].slot == slot < 3 && ListOf(book.cells[page]) == slot
      requires MapOK(maps[page], slot, book.cells[page].chunks) && WordsOK(maps[page])
      requires n < |maps[page]| && i < WORD && i !in maps[page][n]
      requires forall x | 0 <= x < n :: maps[page][x] == Below(WORD)
      modifies pages, heads, maps, `book
      ensures Inv(State(), book) && Took(old(book), book, page, slot, chunk)
      ensures MapOK(maps[page], slot, book.cells[page].chunks) && WordsOK(maps[page])
      ensures forall x | 0 <= x < maps.Length && x != page :: maps[x] == old(maps[x])
    {
      ghost var chunks := book.cells[page].chunks;
      chunk := n * WORD + i;
      assert Record(State().pages[page], book, page);
      BitOnOK(maps[page], slot, chunks, n, i);
      assert chunk < Capacity(slot) && chunk !in chunks;
      hide Inv, AtRest, SameLive;
      maps[page] := maps[page][n := maps[page][n] + {i}];
      FullByWords(maps[page], slot, chunks + {chunk});
      hide MapOK, WordsOK;
      var busy := false;
      if maps[page][n] == Below(WORD) {
        busy := BusyFrom(maps[page], n + 1);
      }
      SettleSmall(page, slot, chunk, busy);
    }

    // ----- allocation

    predicate Layout() {
      PAGE_SIZE * pages.Length <= size && forall i | 0 <= i < |spare| :: spare[i] == ZERO
    }

    /** The contents are those of a pool with this book. */
    ghost predicate ValidFor(b: Book)
      reads this, pages, heads, maps, stats
    {
      Inv(State(), b) && AtRest(b, -1) && pfree == |Avail(b)|
      && ChunksOK(b) && MapsOK(maps[..], b) && StatsOK(stats[..], b)
    }

    /** What holds between the calls. */
    ghost predicate Valid()
      reads this, pages, heads, maps, stats
    {
      Layout() && ValidFor(book)
    }

    /** The requests that a slot has seen, and those that failed, go up. */
    method Requested(slot: nat)
      requires Valid() && slot < SLOTS
      modifies stats
      ensures Valid()
      ensures stats[..] == old(stats[..])[slot := old(stats[slot]).(reqs := old(stats[slot]).reqs + 1)]
    {
      ghost var was := stats[..];
      stats[slot] := stats[slot].(reqs := stats[slot].reqs + 1);
      StatsChange(was, book, stats[..], book, 0);
    }

    method Failed(slot: nat)
      requires Valid() && slot < SLOTS
      modifies stats
      ensures Valid()
      ensures stats[..] == old(stats[..])[slot := old(stats[slot]).(fails := old(stats[slot]).fails + 1)]
    {
      ghost var was := stats[..];
      stats[slot] := stats[slot].(fails := stats[slot].fails + 1);
      StatsChange(was, book, stats[..], book, 0);
    }

    /** A chunk of the first page on the list of a slot. */
    method AllocListed(page: nat, slot: nat) returns (p: int)
      requires Valid() && slot < SLOTS && page < |book.cells| && book.cells[page].Slab?
      requires book.cells[page].slot == slot && ListOf(book.cells[page]) == slot
      modifies pages, heads, maps, stats, `book
      ensures Valid()
      ensures !Live(old(book), p) && Live(book, p) && Extent(book, p) == Size(slot) && LiveButFor(old(book), book, p)
      ensures book.cells[p / PAGE_SIZE].Slab? && book.cells[p / PAGE_SIZE].slot == slot
      ensures stats[..] == old(stats[..])[slot := old(stats[slot]).(used := old(stats[slot]).used + 1)]
    {
      hide Live, LiveButFor, StatsOK, MapsOK, ChunksOK, Avail, Tiled;
      ghost var b, m, t := book, maps[..], stats[..];
      PageKnown(m, b, page);
      Lengths(m, t, b);
      var i;
      if slot < 3 {
        i := TakeSmall(page, slot);
      } else {
        i := TakeBit(page, slot);
      }
      p := page * PAGE_SIZE + i * Size(slot);
      AddressOf(page, slot, i);
      stats[slot] := stats[slot].(used := stats[slot].used + 1);
      TookOne(b, book, page, slot, i);
      hide Inv, AtRest;
      StatsChange(t, b, stats[..], book, page);
      MapsKept(m, b, maps[..], book, page);
    }

    lemma TookOne(b: Book, c: Book, page: nat, slot: nat, j: nat)
      requires Took(b, c, page, slot, j) && ChunksOK(b) && b.cells[page].slot == slot
      ensures slot < SLOTS && ChunksOK(c) && SameLive(b, c, page)
      ensures var p := page * PAGE_SIZE + j * Size(slot);
        !Live(b, p) && Live(c, p) && Extent(c, p) == Size(slot) && LiveButFor(b, c, p)
      ensures forall k: nat | k < SLOTS ::
        && Count(c.cells[page], k, false) - Count(b.cells[page], k, false) == (if k == slot then 1 else 0)
        && Count(c.cells[page], k, true) == Count(b.cells[page], k, true)
    {
      assert ChunksAt(b.cells[page]);
      ChunksChange(b, c, page);
      assert OneMore(b, c, page, slot, j);
      OneMoreLive(b, c, page, slot, j);
      OneMoreCount(b, c, page, slot, j);
    }

    /** A page just allocated becomes a page of chunks: the chunks that hold the bitmap, and the one asked
        for, are taken. At most nine bits are set, so they lie in the first word. */
    method MakeSlab(page: nat, slot: nat)
      requires Inv(State(), book) && AtRest(book, -1) && page < |book.cells| && book.cells[page] == Used(1)
      requires slot < SLOTS && book.lists[slot] == [] && page < maps.Length
      modifies pages, heads, maps, `book
      ensures Inv(State(), book) && AtRest(book, -1) && Tiled(old(book)) && Avail(book) == Avail(old(book))
      ensures |book.cells| == |old(book).cells| && SameLive(old(book), book, page)
      ensures book.cells[page] == Slab(slot, Below(Reserved(slot)) + {Reserved(slot)})
      ensures slot < 3 ==> MapOK(maps[page], slot, book.cells[page].chunks) && WordsOK(maps[page])
      ensures forall x | 0 <= x < maps.Length && x != page :: maps[x] == old(maps[x])
    {
      ghost var b, s := book, State();
      var n := Reserved(slot);
      ghost var chunks := Below(n) + {n};
      assert chunks == Below(n + 1);
      if slot < 3 {
        maps[page] := FirstMap(slot);
      }
      var w := if slot < 3 then Shift(slot + 3) else if slot == 3 then Bits({0}) else BigBits({0}, slot + 3);
      var kind := if slot < 3 then SMALL else if slot == 3 then EXACT else BIG;
      MakeSlabReady(s, b, page, slot, w);
      ghost var c := On(b, slot, page, Slab(slot, chunks));
      hide Inv, AtRest, SameLive, Avail, Tiled, On;
      pages[page] := Page(w, Head(slot), Head(slot), kind);
      heads[slot] := At(page);
      assert State() == SetSlab(Pushed(s, slot, page), page, w);
      book := c;
    }

    /** The bitmap of a page whose own chunks and one more are taken. */
    method FirstMap(slot: nat) returns (bitmap: Bitmap)
      requires slot < 3
      ensures MapOK(bitmap, slot, Below(Reserved(slot)) + {Reserved(slot)}) && WordsOK(bitmap)
    {
      var n := Reserved(slot);
      var words := Capacity(slot) / WORD;
      bitmap := [Below(n + 1)];
      while |bitmap| < words
        invariant 1 <= |bitmap| <= words && bitmap[0] == Below(n + 1)
        invariant forall x | 1 <= x < |bitmap| :: bitmap[x] == {}
      {
        bitmap := bitmap + [{}];
      }
    }

    lemma MakeSlabReady(s: Pages, b: Book, page: nat, slot: nat, w: Word)
      requires Inv(s, b) && AtRest(b, -1) && page < |b.cells| && b.cells[page] == Used(1)
      requires slot < SLOTS && b.lists[slot] == []
      requires w == if slot < 3 then Shift(slot + 3) else if slot == 3 then Bits({0}) else BigBits({0}, slot + 3)
      ensures slot < |s.heads| && page < |s.pages| && s.heads[slot] == Head(slot)
      ensures var chunks := Below(Reserved(slot)) + {Reserved(slot)}; var c := On(b, slot, page, Slab(slot, chunks));
        && Inv(SetSlab(Pushed(s, slot, page), page, w), c)
        && |c.cells| == |b.cells| && c.cells[page] == Slab(slot, chunks)
        && Tiled(b) && Tiled(c) && Avail(c) == Avail(b) && SameLive(b, c, page) && AtRest(c, -1)
    {
      var chunks := Below(Reserved(slot)) + {Reserved(slot)};
      NewChunks(slot);
      SlotEmpty(s, b, slot);
      hide Listed;
      PutSlab(s, b, page, slot, chunks, w);
      hide Pushed;
      SlabKeeps(b, On(b, slot, page, Slab(slot, chunks)), page);
    }

    lemma NewChunks(slot: nat)
      requires slot < SLOTS
      ensures Below(Reserved(slot)) + {Reserved(slot)} == Below(Reserved(slot) + 1)
      ensures Reserved(slot) + 1 < Capacity(slot) && Reserved(slot) + 1 !in Below(Reserved(slot) + 1)
      ensures ListOf(Slab(slot, Below(Reserved(slot)) + {Reserved(slot)})) == slot
      ensures slot >= 3 ==> Below(Reserved(slot)) + {Reserved(slot)} == {0}
    {
      assert Reserved(slot) + 1 in Below(Capacity(slot));
    }

    lemma SlotEmpty(s: Pages, b: Book, slot: nat)
      requires Inv(s, b) && slot < |b.lists| && b.lists[slot] == []
      ensures slot < |s.heads| && s.heads[slot] == Head(slot)
    {
      assert Listed(s, slot, b.lists[slot]);
    }

    /** A page is allocated for a slot whose list is empty. */
    method AllocNew(slot: nat) returns (ok: bool, p: int)
      requires Valid() && slot < SLOTS && book.lists[slot] == []
      modifies this, pages, heads, maps, stats
      ensures Valid()
      ensures ok <==> exists h :: 0 <= h < |old(book).cells| && old(book).cells[h].Free?
      ensures ok ==>
        !Live(old(book), p) && Live(book, p) && Extent(book, p) == Size(slot) && LiveButFor(old(book), book, p)
      ensures ok ==> book.cells[p / PAGE_SIZE].Slab? && book.cells[p / PAGE_SIZE].slot == slot
      ensures ok ==> stats[..] == old(stats[..])[slot := old(stats[slot]).(
        used := old(stats[slot]).used + 1, total := old(stats[slot]).total + Capacity(slot) - Reserved(slot))]
      ensures !ok ==> book == old(book) && stats[..] == old(stats[..])
    {
      hide Live, LiveButFor, StatsOK, MapsOK, ChunksOK, Count, Inv, AtRest, SameLive;
      ghost var b, m, t := book, maps[..], stats[..];
      Lengths(m, t, b);
      p := 0;
      var page;
      InvMembers(State(), b);
      ok, page := AllocPages(1);
      if ok {
        ghost var u := book;
        InvMembers(State(), u);
        assert LiveCell(b.cells[page]) == Inside;
        StillEmpty(b, u, page, slot);
        MakeSlab(page, slot);
        hide Inv, AtRest, Tiled;
        p := page * PAGE_SIZE + Reserved(slot) * Size(slot);
        NewChunks(slot);
        AddressOf(page, slot, Reserved(slot));
        stats[slot] := stats[slot].(
          total := stats[slot].total + (Capacity(slot) - Reserved(slot)), used := stats[slot].used + 1);
        SameLiveTrans(b, u, book, page);
        BecameSlab(b, book, page, slot);
        hide SameLive, LiveButFor, ChunksOK;
        StatsChange(t, b, stats[..], book, page);
        MapsKept(m, b, maps[..], book, page);
      } else {
        SomeLength(b);
      }
    }

    lemma InvMembers(s: Pages, b: Book)
      requires Inv(s, b)
      ensures Members(b) && |s.pages| == |b.cells| && |s.heads| == SLOTS + 1
    {
    }

    lemma SomeLength(b: Book)
      requires Tiled(b)
      ensures forall h | 0 <= h < |b.cells| && b.cells[h].Free? :: b.cells[h].len >= 1
    {
      forall h | 0 <= h < |b.cells| && b.cells[h].Free?
        ensures b.cells[h].len >= 1
      {
        assert Spans(b, h);
      }
    }

    lemma StillEmpty(b: Book, c: Book, page: nat, slot: nat)
      requires Members(b) && Members(c) && SameLive(b, c, page) && page < |c.cells| && c.cells[page].Used?
      requires slot < SLOTS && b.lists[slot] == []
      ensures c.lists[slot] == []
    {
      forall i: nat
        ensures i !in c.lists[slot]
      {
        assert i !in b.lists[slot];
        if i < |b.cells| {
          assert i != page ==> LiveCell(c.cells[i]) == LiveCell(b.cells[i]);
        }
      }
      HasFirst(c.lists[slot]);
    }

    lemma HasFirst(l: seq<nat>)
      ensures l == [] || exists i :: i in l
    {
      assert l == [] || l[0] in l;
    }

    lemma BecameSlab(b: Book, c: Book, page: nat, slot: nat)
      requires ChunksOK(b) && SameLive(b, c, page) && page < |b.cells|
      requires LiveCell(b.cells[page]) == Inside && slot < SLOTS
      requires c.cells[page] == Slab(slot, Below(Reserved(slot)) + {Reserved(slot)})
      ensures ChunksOK(c)
      ensures var p := page * PAGE_SIZE + Reserved(slot) * Size(slot);
        !Live(b, p) && Live(c, p) && Extent(c, p) == Size(slot) && LiveButFor(b, c, p)
      ensures forall k: nat | k < SLOTS ::
        && Count(c.cells[page], k, false) - Count(b.cells[page], k, false) == (if k == slot then 1 else 0)
        && Count(c.cells[page], k, true) - Count(b.cells[page], k, true)
           == (if k == slot then Capacity(slot) - Reserved(slot) else 0)
    {
      NewChunks(slot);
      ChunksChange(b, c, page);
      assert NewPage(b, c, page, slot, Reserved(slot));
      NewPageLive(b, c, page, slot, Reserved(slot));
      NewPageCount(b, c, page, slot, Reserved(slot));
    }

    /** More than half a page: whole pages. */
    method AllocRun(n: nat) returns (ok: bool, p: int)
      requires Valid() && n > 0
      modifies this, pages, heads
      ensures Valid()
      ensures ok <==> exists h :: 0 <= h < |old(book).cells| && old(book).cells[h].Free? && old(book).cells[h].len >= n
      ensures ok ==>
        !Live(old(book), p) && Live(book, p) && Extent(book, p) == n * PAGE_SIZE && LiveButFor(old(book), book, p)
      ensures !ok ==> book == old(book)
    {
      ghost var b := book;
      var page;
      ok, page := AllocPages(n);
      p := 0;
      if ok {
        p := page * PAGE_SIZE;
        RunLive(b, book, page);
        ChunksChange(b, book, page);
        hide Inv, AtRest, SameLive;
        StatsChange(stats[..], b, stats[..], book, page);
        MapsKept(maps[..], b, maps[..], book, page);
      }
    }

    /** There is room: a page of the slot with a free chunk, or a free page; or a free run of enough pages. */
    ghost predicate Room(b: Book, size: nat) {
      if size > MAX_SIZE then
        exists h :: 0 <= h < |b.cells| && b.cells[h].Free? && b.cells[h].len * PAGE_SIZE >= size
      else
        exists h :: 0 <= h < |b.cells| && (b.cells[h].Free? || (b.cells[h].Slab? && Fits(b.cells[h].slot, size)
                                           && ListOf(b.cells[h]) >= 0))
    }

    /** ngx_slab_alloc_locked: memory that was free and is large enough, exactly when there is some. */
    method Alloc(size: nat) returns (ok: bool, p: int)
      requires Valid()
      modifies this, pages, heads, maps, stats
      ensures Valid()
      ensures ok <==> Room(old(book), size)
      ensures ok ==> !Live(old(book), p) && Live(book, p) && Extent(book, p) >= size && LiveButFor(old(book), book, p)
      ensures ok && size <= MAX_SIZE ==>
        var c := book.cells[p / PAGE_SIZE]; c.Slab? && Fits(c.slot, size) && Extent(book, p) == Size(c.slot)
      ensures ok && size > MAX_SIZE ==> size <= Extent(book, p) < size + PAGE_SIZE
      ensures !ok ==> book == old(book)
      ensures Noted(old(stats[..]), stats[..], size, ok)
    {
      ghost var b, t := book, stats[..];
      hide Inv, AtRest, ChunksOK, MapsOK, StatsOK, LiveButFor, Noted;
      Lengths(maps[..], t, b);
      if size > MAX_SIZE {
        NotedOnce(t, size);
        ok, p := AllocRun(size / PAGE_SIZE + (if size % PAGE_SIZE != 0 then 1 else 0));
        return;
      }
      var slot := SlotFor(size);
      Requested(slot);
      FirstListed(State(), b, slot);
      var page := heads[slot];
      var next := if page.At? then pages[page.page].next else heads[slot];
      if next != page {
        p := AllocListed(page.page, slot);
        ok := true;
        NotedAt(t, stats[..], slot, size, ok);
        return;
      }
      ok, p := AllocNew(slot);
      if !ok {
        Failed(slot);
      }
      NotedAt(t, stats[..], slot, size, ok);
    }

    lemma NotedOnce(t: seq<Stat>, size: nat)
      requires |t| == SLOTS && size > MAX_SIZE
      ensures Noted(t, t, size, true) && Noted(t, t, size, false)
    {
    }

    lemma NotedAt(was: seq<Stat>, now: seq<Stat>, slot: nat, size: nat, ok: bool)
      requires |was| == |now| == SLOTS && size <= MAX_SIZE && Fits(slot, size)
      requires forall k | 0 <= k < SLOTS && k != slot :: now[k] == was[k]
      requires now[slot].reqs == was[slot].reqs + 1 && now[slot].fails == was[slot].fails + if ok then 0 else 1
      ensures Noted(was, now, size, ok)
    {
      forall k | 0 <= k < SLOTS && Fits(k, size)
        ensures k == slot
      {
        if slot <= k {
          FitsOne(slot, k, size);
        } else {
          FitsOne(k, slot, size);
        }
      }
    }

    /** The test for an empty list: the first entry is its own successor. */
    lemma FirstListed(s: Pages, b: Book, slot: nat)
      requires Inv(s, b) && slot < SLOTS && ChunksOK(b)
      ensures slot < |s.heads| && s.heads[slot] != Null
      ensures if s.heads[slot].At? then
                var i := s.heads[slot].page;
                i < |s.pages| == |b.cells| && s.pages[i].next != At(i) && b.cells[i].Slab? && b.cells[i].slot == slot
                && ListOf(b.cells[i]) == slot
              else
                s.heads[slot] == Head(slot) && b.lists[slot] == []
                && forall h | 0 <= h < |b.cells| && b.cells[h].Slab? && b.cells[h].slot == slot ::
                  ListOf(b.cells[h]) < 0
    {
      var l := b.lists[slot];
      assert Listed(s, slot, l);
      HeadInside(s, slot, l);
      if l != [] {
        LinksInside(s, slot, l, 0);
        assert l[0] in l;
      } else {
        forall h: nat | h < |b.cells| && b.cells[h].Slab? && b.cells[h].slot == slot
          ensures ListOf(b.cells[h]) < 0
        {
          assert h !in l;
        }
      }
    }

    // ----- release

    /** One chunk of a page goes, and another one stays taken. */
    ghost predicate Dropped(b: Book, c: Book, page: nat, slot: nat, j: nat) {
      page < |b.cells| == |c.cells| && b.cells[page].Slab? && j in b.cells[page].chunks
      && c.cells[page] == Slab(slot, b.cells[page].chunks - {j})
      && AtRest(c, -1) && SameLive(b, c, page) && Tiled(b) && Tiled(c) && Avail(c) == Avail(b)
    }

    /** The page is put back on its list when it was full, and the bit is cleared; w is the new word. */
    method DropChunk(page: nat, slot: nat, j: nat, w: Word)
      requires Inv(State(), book) && AtRest(book, -1) && page < |book.cells|
      requires book.cells[page].Slab? && book.cells[page].slot == slot < SLOTS && j in book.cells[page].chunks
      requires SlabFits(slot, book.cells[page].chunks - {j}, w)
      modifies pages, heads, `book
      ensures Inv(State(), book) && Dropped(old(book), book, page, slot, j) && ListOf(book.cells[page]) == slot
    {
      ghost var b, s := book, State();
      ghost var chunks := b.cells[page].chunks;
      ghost var cell := Slab(slot, chunks - {j});
      assert Record(s.pages[page], b, page);
      assert j in Below(Capacity(slot)) && j !in chunks - {j};
      FullIsUnlinked(s, b, page);
      if (if slot == 3 then BitsOf(pages[page].slab) == Below(WORD) else pages[page].next == Null) {
        var kind := if slot < 3 then SMALL else if slot == 3 then EXACT else BIG;
        NextOfListed(s, b, page, slot);
        PutSlab(s, b, page, slot, chunks - {j}, w);
        ghost var c := On(b, slot, page, cell);
        SlabKeeps(b, c, page);
        hide Inv, AtRest, SameLive, Avail;
        var next := heads[slot];
        pages[page] := pages[page].(next := next);
        heads[slot] := At(page);
        pages[page] := pages[page].(prev := Head(slot), kind := kind);
        WritePrev(pages[page].next, At(page), kind);
        assert State() == Pushed(s, slot, page);
        WritePage(page, pages[page].(slab := w));
        book := c;
      } else {
        ListedByLink(s, b, page);
        ChangeChunks(s, b, page, slot, chunks - {j}, w);
        SlabKeeps(b, Retag(b, page, cell), page);
        hide Inv, AtRest, SameLive, Avail;
        WritePage(page, pages[page].(slab := w));
        book := Retag(b, page, cell);
      }
    }

    /** A page of chunks is full exactly when it is on no list. */
    lemma FullIsUnlinked(s: Pages, b: Book, page: nat)
      requires Inv(s, b) && page < |b.cells| && b.cells[page].Slab?
      ensures page < |s.pages|
      ensures s.pages[page].next == Null <==> b.cells[page].chunks == Below(Capacity(b.cells[page].slot))
    {
      assert Record(s.pages[page], b, page);
      if ListOf(b.cells[page]) >= 0 {
        ListedIsLinked(s, b, page);
      }
    }

    lemma NextOfListed(s: Pages, b: Book, page: nat, slot: nat)
      requires Inv(s, b) && slot < SLOTS && page < |b.cells|
      requires page < |s.pages| && s.pages[page].next == Null && b.cells[page].Slab?
      ensures slot < |s.heads| && s.heads[slot] != Null && (s.heads[slot].At? ==> s.heads[slot].page < |s.pages|)
      ensures s.heads[slot].Head? ==> s.heads[slot].list == slot
      ensures ListOf(b.cells[page]) == -1 && s.heads[slot] != At(page)
    {
      assert Listed(s, slot, b.lists[slot]);
      HeadInside(s, slot, b.lists[slot]);
      if ListOf(b.cells[page]) >= 0 {
        ListedIsLinked(s, b, page);
      }
      assert b.lists[slot] != [] ==> b.lists[slot][0] in b.lists[slot];
    }

    lemma ListedByLink(s: Pages, b: Book, page: nat)
      requires Inv(s, b) && page < |b.cells| && page < |s.pages| && s.pages[page].next != Null && b.cells[page].Slab?
      ensures ListOf(b.cells[page]) == b.cells[page].slot
    {
      assert Record(s.pages[page], b, page);
    }

    /** Whether only the chunks of the bitmap are left, from the words. */
    method Emptied(page: nat, slot: nat) returns (empty: bool)
      requires page < maps.Length && slot < 3 && |maps[page]| == Capacity(slot) / WORD
      ensures empty <==> maps[page][0] - Below(Reserved(slot)) == {} && forall n | 0 < n < |maps[page]| ::
        maps[page][n] == {}
    {
      if maps[page][0] - Below(Reserved(slot)) != {} {
        return false;
      }
      var i := 1;
      while i < |maps[page]|
        invariant 1 <= i <= |maps[page]| && forall n | 0 < n < i :: maps[page][n] == {}
      {
        if maps[page][i] != {} {
          return false;
        }
        i := i + 1;
      }
      return true;
    }

    /** The bit of a chunk is cleared, in the page or in its record. */
    method ClearChunk(page: nat, slot: nat, j: nat) returns (empty: bool)
      requires Inv(State(), book) && AtRest(book, -1) && MapsOK(maps[..], book) && page < |book.cells|
      requires book.cells[page].Slab? && book.cells[page].slot == slot < SLOTS && j in book.cells[page].chunks
      requires book.cells[page].chunks <= Below(Capacity(slot))
      modifies pages, heads, maps, `book
      ensures Inv(State(), book) && Dropped(old(book), book, page, slot, j) && ListOf(book.cells[page]) == slot
      ensures MapsOK(maps[..], book) && forall x | 0 <= x < maps.Length && x != page :: maps[x] == old(maps[x])
      ensures empty <==> book.cells[page].chunks <= Below(Reserved(slot))
    {
      ghost var b, m := book, maps[..];
      ghost var chunks := b.cells[page].chunks;
      assert Record(State().pages[page], b, page) && MapsAt(m, b, page);
      assert j in Below(Capacity(slot));
      if slot < 3 {
        DropChunk(page, slot, j, pages[page].slab);
        var n, i := j / WORD, j % WORD;
        BitOffOK(maps[page], slot, chunks, n, i);
        maps[page] := maps[page][n := maps[page][n] - {i}];
        EmptyByWords(maps[page], slot, chunks - {j});
        empty := Emptied(page, slot);
      } else {
        var bits := BitsOf(pages[page].slab) - {j};
        DropChunk(page, slot, j, WithBits(pages[page].slab, bits));
        empty := bits == {};
        assert Below(Reserved(slot)) == {};
      }
      MapsKept(m, b, maps[..], book, page);
    }

    /** A taken chunk is given back; the page goes with its last chunk. When the chunk holds the bitmap itself,
        nothing allocated goes, and no book fits the pool any more. */
    method FreeChunk(page: nat, slot: nat, j: nat)
      requires Valid() && page < |book.cells| && slot < SLOTS
      requires book.cells[page].Slab? && book.cells[page].slot == slot && j in book.cells[page].chunks
      modifies this, pages, heads, maps, stats
      ensures j < Capacity(slot)
      ensures Reserved(slot) <= j ==>
        var p := page * PAGE_SIZE + j * Size(slot);
        Valid() && Live(old(book), p) && !Live(book, p) && LiveButFor(old(book), book, p)
      ensures j < Reserved(slot) ==>
        (forall b :: !ValidFor(b)) && Inv(State(), book) && forall a: int :: Live(book, a) <==> Live(old(book), a)
      ensures forall k | 0 <= k < stats.Length ::
        stats[k].reqs == old(stats[k].reqs) && stats[k].fails == old(stats[k].fails)
    {
      ghost var b, m, t := book, maps[..], stats[..];
      assert ChunksAt(b.cells[page]);
      assert j in Below(Capacity(slot));
      LastIsLive(b, page, slot, j);
      var empty := ClearChunk(page, slot, j);
      ghost var u, n := book, maps[..];
      if empty {
        assert MapsAt(n, u, page);
        FreePages(page, 1);
        stats[slot] := stats[slot].(total := stats[slot].total - (Capacity(slot) - Reserved(slot)));
        SameLiveTrans(b, u, book, page);
        PageGone(b, book, page, slot, j);
      } else if Reserved(slot) <= j {
        ChunkGone(b, book, page, slot, j);
      }
      stats[slot] := stats[slot].(used := stats[slot].used - 1);
      if Reserved(slot) <= j {
        hide Inv, AtRest, SameLive, LiveButFor;
        StatsChange(t, b, stats[..], book, page);
        MapsKept(m, b, maps[..], book, page);
      } else {
        hide Inv, AtRest, LiveButFor, Dropped, MapsOK;
        BitmapGone(page, slot, j);
        BitmapLive(b, book, page, slot, j);
      }
    }

    /** A page of chunks has one behind its bitmap. */
    lemma LastIsLive(b: Book, page: nat, slot: nat, j: nat)
      requires ChunksOK(b) && page < |b.cells| && b.cells[page].Slab? && b.cells[page].slot == slot < SLOTS
      ensures j < Reserved(slot) ==> !(b.cells[page].chunks - {j} <= Below(Reserved(slot)))
      ensures Reserved(slot) <= j && b.cells[page].chunks - {j} <= Below(Reserved(slot)) ==>
        b.cells[page].chunks - {j} == Below(Reserved(slot))
    {
      assert ChunksAt(b.cells[page]);
      var k :| k in b.cells[page].chunks && k !in Below(Reserved(slot));
    }

    /** Without one of the bits that the bitmap has for itself no book fits. */
    lemma BitmapGone(page: nat, slot: nat, j: nat)
      requires Inv(State(), book) && AtRest(book, -1) && MapsOK(maps[..], book) && page < |book.cells|
      requires book.cells[page].Slab? && book.cells[page].slot == slot < SLOTS && j < Reserved(slot)
      requires j !in book.cells[page].chunks
      ensures forall b :: !ValidFor(b)
    {
      assert MapsAt(maps[..], book, page) && j == WORD * (j / WORD) + j % WORD;
      forall b
        ensures !ValidFor(b)
      {
        if ValidFor(b) {
          BitIsSet(b, page, slot, j);
        }
      }
    }

    lemma BitIsSet(b: Book, page: nat, slot: nat, j: nat)
      requires ValidFor(b) && Inv(State(), book) && AtRest(book, -1) && page < |book.cells|
      requires book.cells[page].Slab? && book.cells[page].slot == slot < SLOTS && j < Reserved(slot)
      ensures page < maps.Length && j / WORD < |maps[page]| && j % WORD in maps[page][j / WORD]
    {
      assert j in Below(Reserved(slot));
      RecordTells(State(), book, page);
      assert |b.cells| == |book.cells|;
      RecordTells(State(), b, page);
      assert ChunksAt(b.cells[page]) && MapsAt(maps[..], b, page);
      assert j == WORD * (j / WORD) + j % WORD;
    }

    lemma BitmapLive(b: Book, c: Book, page: nat, slot: nat, j: nat)
      requires Dropped(b, c, page, slot, j) && b.cells[page].slot == slot && j < Reserved(slot)
      ensures forall a: int :: Live(c, a) <==> Live(b, a)
    {
      forall a: int
        ensures Live(c, a) <==> Live(b, a)
      {
        if 0 <= a && a / PAGE_SIZE < |b.cells| && a / PAGE_SIZE != page {
          assert LiveCell(c.cells[a / PAGE_SIZE]) == LiveCell(b.cells[a / PAGE_SIZE]);
        }
      }
    }

    lemma PageGone(b: Book, c: Book, page: nat, slot: nat, j: nat)
      requires ChunksOK(b) && SameLive(b, c, page) && page < |c.cells| && LiveCell(c.cells[page]) == Inside
      requires b.cells[page].Slab? && b.cells[page].slot == slot < SLOTS
      requires j in b.cells[page].chunks && Reserved(slot) <= j
      requires b.cells[page].chunks - {j} == Below(Reserved(slot))
      ensures ChunksOK(c)
      ensures var p := page * PAGE_SIZE + j * Size(slot); Live(b, p) && !Live(c, p) && LiveButFor(b, c, p)
      ensures forall k: nat | k < SLOTS ::
        && Count(c.cells[page], k, false) - Count(b.cells[page], k, false) == (if k == slot then -1 else 0)
        && Count(c.cells[page], k, true) - Count(b.cells[page], k, true)
           == (if k == slot then Reserved(slot) - Capacity(slot) else 0)
    {
      ChunksChange(b, c, page);
      assert ChunksAt(b.cells[page]);
      assert j in Below(Capacity(slot));
      assert b.cells[page].chunks == Below(Reserved(slot)) + {j};
      SameLiveBack(b, c, page);
      assert NewPage(c, b, page, slot, j);
      NewPageLive(c, b, page, slot, j);
      NewPageCount(c, b, page, slot, j);
    }

    lemma ChunkGone(b: Book, c: Book, page: nat, slot: nat, j: nat)
      requires ChunksOK(b) && Dropped(b, c, page, slot, j) && b.cells[page].slot == slot && Reserved(slot) <= j
      requires c.cells[page].chunks != Below(Reserved(slot))
      ensures ChunksOK(c) && slot < SLOTS
      ensures var p := page * PAGE_SIZE + j * Size(slot); Live(b, p) && !Live(c, p) && LiveButFor(b, c, p)
      ensures forall k: nat | k < SLOTS ::
        && Count(c.cells[page], k, false) - Count(b.cells[page], k, false) == (if k == slot then -1 else 0)
        && Count(c.cells[page], k, true) == Count(b.cells[page], k, true)
    {
      assert ChunksAt(b.cells[page]);
      assert j in Below(Capacity(slot));
      assert Below(Reserved(slot)) <= c.cells[page].chunks;
      ChunksChange(b, c, page);
      assert b.cells[page].chunks == c.cells[page].chunks + {j};
      SameLiveBack(b, c, page);
      assert OneMore(c, b, page, slot, j);
      OneMoreLive(c, b, page, slot, j);
      OneMoreCount(c, b, page, slot, j);
    }

    lemma SameLiveBack(b: Book, c: Book, page: nat)
      requires SameLive(b, c, page)
      ensures SameLive(c, b, page)
    {
      forall i | 0 <= i < |c.cells| && i != page
        ensures LiveCell(b.cells[i]) == LiveCell(c.cells[i])
      {
        assert LiveCell(c.cells[i]) == LiveCell(b.cells[i]);
      }
    }

    /** An allocated run is given back. */
    method FreeRun(page: nat, n: nat)
      requires Valid() && page < |book.cells| && book.cells[page] == Used(n)
      modifies this, pages, heads
      ensures Valid() && Live(old(book), page * PAGE_SIZE) && !Live(book, page * PAGE_SIZE)
      ensures LiveButFor(old(book), book, page * PAGE_SIZE)
    {
      ghost var b := book;
      FreePages(page, n);
      SameLiveBack(b, book, page);
      RunLive(book, b, page);
      ChunksChange(b, book, page);
      hide Inv, AtRest, SameLive, LiveButFor;
      StatsChange(stats[..], b, stats[..], book, page);
      MapsKept(maps[..], b, maps[..], book, page);
    }

    /** What a record tells about its page. */
    lemma RecordTells(s: Pages, b: Book, i: nat)
      requires Inv(s, b) && AtRest(b, -1) && i < |b.cells|
      ensures i < |s.pages|
      ensures s.pages[i].kind != PAGE ==> b.cells[i].Slab? && SlotOf(s.pages[i]) == b.cells[i].slot < SLOTS
      ensures s.pages[i].kind == PAGE ==> !b.cells[i].Slab?
      ensures s.pages[i].kind == PAGE ==> if s.pages[i].slab.Start? then b.cells[i] == Used(s.pages[i].slab.n)
        else !b.cells[i].Used?
    {
      assert Record(s.pages[i], b, i);
      FreeIsLinked(s, b, i);
    }

    /** ngx_slab_free_locked: gives back what is allocated at p and nothing else; any other pointer is turned
        down, except one to the bitmap of a small page, which is taken for a chunk and leaves the pool broken.
        Behind the last page the record read may lie behind those that are cleared; then nothing can be said. */
    method Free(p: int) returns (r: Freed)
      requires Valid()
      modifies this, pages, heads, maps, stats
      ensures r == Given <==> Live(old(book), p) || OnBitmap(old(book), p)
      ensures r == Unread <==> 0 <= p <= size && p / PAGE_SIZE >= Readable()
      ensures Live(old(book), p) ==> !Live(book, p) && LiveButFor(old(book), book, p)
      ensures Valid() <==> !OnBitmap(old(book), p)
      ensures OnBitmap(old(book), p) ==>
        (forall b :: !ValidFor(b)) && forall a: int :: Live(book, a) <==> Live(old(book), a)
      ensures r != Given ==> book == old(book) && State() == old(State()) && pfree == old(pfree)
                             && maps[..] == old(maps[..]) && stats[..] == old(stats[..])
      ensures forall k | 0 <= k < stats.Length ::
        stats[k].reqs == old(stats[k].reqs) && stats[k].fails == old(stats[k].fails)
    {
      if p < 0 || p > size {
        return Refused;
      }
      var n := p / PAGE_SIZE;
      var off := p % PAGE_SIZE;
      if n >= Readable() {
        return Unread;
      }
      var page := if n < pages.Length then pages[n] else spare[n - pages.Length];
      if n < pages.Length {
        RecordTells(State(), book, n);
      }
      hide Inv, AtRest, ChunksOK, MapsOK, StatsOK, LiveButFor;
      if page.kind == PAGE {
        if off != 0 {
          return Refused;
        }
        if !page.slab.Start? {
          return Refused;
        }
        FreeRun(n, page.slab.n);
        return Given;
      }
      var slot := SlotOf(page);
      if off % Size(slot) != 0 {
        return Refused;
      }
      AddressIs(p, slot);
      var j := off / Size(slot);
      var taken := TestBit(n, slot, j);
      TakenIsLive(book, p);
      if !taken {
        return Refused;
      }
      FreeChunk(n, slot, j);
      return Given;
    }

    method TestBit(page: nat, slot: nat, j: nat) returns (taken: bool)
      requires Valid() && page < |book.cells| && book.cells[page].Slab?
      requires book.cells[page].slot == slot && j < Capacity(slot)
      ensures taken <==> j in book.cells[page].chunks
    {
      assert Record(State().pages[page], book, page) && MapsAt(maps[..], book, page);
      if slot < 3 {
        var n, i := j / WORD, j % WORD;
        assert j == WORD * n + i;
        return i in maps[page][n];
      }
      return j in BitsOf(pages[page].slab);
    }

    lemma AddressIs(p: nat, slot: nat)
      requires slot < SLOTS && p % PAGE_SIZE % Size(slot) == 0
      ensures p == p / PAGE_SIZE * PAGE_SIZE + p % PAGE_SIZE / Size(slot) * Size(slot)
      ensures p % PAGE_SIZE / Size(slot) < Capacity(slot)
    {
      ChunkAddress(slot, p % PAGE_SIZE);
      ChunkInside(slot, p % PAGE_SIZE);
    }
  }

  /** A zone of eight pages has as many records as pages, and none for its end. */
  method EndHasNoRecord() returns (r: Freed)
    ensures r == Unread
  {
    assert RecordsAt(200) == 704 && RecordCount(200, 32768) == 7 && FirstPage(200, 32768) == 4096;
    var pool := new Pool(200, 32768);
    r := pool.Free(pool.size);
  }

  /** One allocation and one release of the wrong pointer leave a pool that no book fits. */
  method BitmapReleased(slots: nat, end: nat) returns (pool: Pool, r: Freed)
    requires PageCount(slots, end) > 0
    ensures r == Given && forall b :: !pool.ValidFor(b)
  {
    pool := new Pool(slots, end);
    var ok, a := pool.Alloc(8);
    ghost var h := pool.book.cells[a / PAGE_SIZE];
    assert h.Slab? && h.slot == 0;
    var p := a - a % PAGE_SIZE;
    assert p / PAGE_SIZE == a / PAGE_SIZE && p % PAGE_SIZE == 0;
    assert OnBitmap(pool.book, p);
    r := pool.Free(p);
  }
}
