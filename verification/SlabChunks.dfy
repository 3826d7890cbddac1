/** The chunk layer of the slab allocator: pages cut into chunks of one size, their bitmaps, the counters of
    each slot, and what is allocated. */
module SlabChunks {
  import opened SlabPages

  const PAGE_SIZE := 4096
  const MAX_SIZE := 2048

  /** The chunk size of a slot, 8 << slot. */
  function Size(slot: nat): nat {
    match slot
    case 0 => 8 case 1 => 16 case 2 => 32 case 3 => 64 case 4 => 128
    case 5 => 256 case 6 => 512 case 7 => 1024 case _ => 2048
  }

  lemma Geometry(slot: nat)
    requires slot < SLOTS
    ensures Capacity(slot) * Size(slot) == PAGE_SIZE
    ensures Reserved(slot) + 1 < Capacity(slot) || slot > 2
    ensures slot < 3 ==> Capacity(slot) % 64 == 0 && 8 * Reserved(slot) * Size(slot) >= Capacity(slot)
  {
  }

  // ----- what is allocated

  /** a is the address, from the start of the first page, of an allocated run or chunk. */
  predicate Live(b: Book, a: int) {
    a >= 0 && a / PAGE_SIZE < |b.cells|
    && match b.cells[a / PAGE_SIZE]
       case Used(_) => a % PAGE_SIZE == 0
       case Slab(slot, chunks) => a % PAGE_SIZE % Size(slot) == 0 && Reserved(slot) <= a % PAGE_SIZE / Size(slot)
                                  && a % PAGE_SIZE / Size(slot) in chunks
       case _ => false
  }

  /** The bytes that belong to it. */
  function Extent(b: Book, a: int): (r: nat)
    requires Live(b, a)
  {
    var c := b.cells[a / PAGE_SIZE];
    if c.Used? then c.len * PAGE_SIZE else Size(c.slot)
  }

  /** The bytes at the start of a small page that hold its bitmap. */
  predicate InBitmap(b: Book, x: int) {
    x >= 0 && x / PAGE_SIZE < |b.cells|
    && match b.cells[x / PAGE_SIZE]
       case Slab(slot, _) => slot < 3 && x % PAGE_SIZE < Capacity(slot) / 8
       case _ => false
  }

  /** The chunks of a page: those that hold the bitmap are taken, and at rest one more is. */
  predicate ChunksAt(c: Cell) {
    c.Slab? ==> c.slot < SLOTS && Below(Reserved(c.slot)) < c.chunks <= Below(Capacity(c.slot))
  }

  ghost predicate ChunksOK(b: Book) {
    forall i {:trigger b.cells[i]} | 0 <= i < |b.cells| :: ChunksAt(b.cells[i])
  }

  /** Allocated memory lies in the pool, does not overlap, and leaves the bitmaps alone. */
  lemma LiveInside(b: Book, a: int)
    requires Tiled(b) && ChunksOK(b) && Live(b, a)
    ensures 0 < Extent(b, a) && a + Extent(b, a) <= PAGE_SIZE * |b.cells|
  {
    var i := a / PAGE_SIZE;
    assert Spans(b, i);
    if b.cells[i].Slab? {
      ChunkInside(b.cells[i].slot, a % PAGE_SIZE);
    }
  }

  lemma ChunkInside(slot: nat, off: nat)
    requires slot < SLOTS && off < PAGE_SIZE && off % Size(slot) == 0
    ensures off + Size(slot) <= PAGE_SIZE && off / Size(slot) < Capacity(slot)
  {
  }

  lemma LiveDisjoint(b: Book, a: int, c: int)
    requires Tiled(b) && ChunksOK(b) && Live(b, a) && Live(b, c) && a < c
    ensures a + Extent(b, a) <= c
  {
    var i, k := a / PAGE_SIZE, c / PAGE_SIZE;
    if i < k {
      RunsDisjoint(b, i, k);
      if b.cells[i].Slab? {
        ChunkInside(b.cells[i].slot, a % PAGE_SIZE);
      }
    } else {
      ChunksApart(b.cells[i].slot, a % PAGE_SIZE, c % PAGE_SIZE);
    }
  }

  lemma ChunksApart(slot: nat, x: nat, y: nat)
    requires slot < SLOTS && x < y < PAGE_SIZE && x % Size(slot) == 0 && y % Size(slot) == 0
    ensures x + Size(slot) <= y
  {
  }

  lemma LiveClearOfBitmaps(b: Book, a: int, x: int)
    requires Tiled(b) && ChunksOK(b) && Live(b, a) && a <= x < a + Extent(b, a)
    ensures !InBitmap(b, x)
  {
    var i, k := a / PAGE_SIZE, x / PAGE_SIZE;
    LiveInside(b, a);
    if b.cells[i].Slab? {
      ChunkInside(b.cells[i].slot, a % PAGE_SIZE);
      ChunkBehindBitmap(b.cells[i].slot, a % PAGE_SIZE);
    } else {
      InsideRun(b, i);
      hide Tiled, ChunksOK;
      assert i <= k < i + b.cells[i].len;
    }
  }

  lemma ChunkBehindBitmap(slot: nat, off: nat)
    requires slot < SLOTS && Reserved(slot) <= off / Size(slot)
    ensures slot < 3 ==> off >= Capacity(slot) / 8
  {
  }

  // ----- bitmaps in the pages

  const WORD := 64

  type Bitmap = seq<set<nat>>

  /** Bit i of word n stands for chunk 64 n + i. */
  ghost predicate MapOK(bitmap: Bitmap, slot: nat, chunks: set<nat>) {
    |bitmap| == Capacity(slot) / WORD && forall n: nat, i: nat {:trigger i in bitmap[n]} | n < |bitmap| && i < WORD ::
      i in bitmap[n] <==> WORD * n + i in chunks
  }

  ghost predicate WordsOK(bitmap: Bitmap) {
    forall n {:trigger bitmap[n]} | 0 <= n < |bitmap| :: bitmap[n] <= Below(WORD)
  }

  ghost predicate MapsAt(maps: seq<Bitmap>, b: Book, i: nat)
    requires i < |maps| == |b.cells|
  {
    b.cells[i].Slab? && b.cells[i].slot < 3 ==> MapOK(maps[i], b.cells[i].slot, b.cells[i].chunks) && WordsOK(maps[i])
  }

  ghost predicate MapsOK(maps: seq<Bitmap>, b: Book) {
    |maps| == |b.cells| && forall i: nat {:trigger MapsAt(maps, b, i)} | i < |maps| :: MapsAt(maps, b, i)
  }

  lemma MapsKept(maps: seq<Bitmap>, b: Book, maps': seq<Bitmap>, c: Book, h: nat)
    requires MapsOK(maps, b) && SameLive(b, c, h) && |maps'| == |maps|
    requires forall i | 0 <= i < |maps| && i != h :: maps'[i] == maps[i]
    requires h < |maps| ==> MapsAt(maps', c, h)
    ensures MapsOK(maps', c)
  {
    forall i: nat | i < |maps'|
      ensures MapsAt(maps', c, i)
    {
      assert MapsAt(maps, b, i);
      assert i != h ==> LiveCell(c.cells[i]) == LiveCell(b.cells[i]);
    }
  }

  function BitOn(bitmap: Bitmap, n: nat, i: nat): Bitmap
    requires n < |bitmap|
  {
    bitmap[n := bitmap[n] + {i}]
  }

  function BitOff(bitmap: Bitmap, n: nat, i: nat): Bitmap
    requires n < |bitmap|
  {
    bitmap[n := bitmap[n] - {i}]
  }

  lemma BitOnOK(bitmap: Bitmap, slot: nat, chunks: set<nat>, n: nat, i: nat)
    requires MapOK(bitmap, slot, chunks) && WordsOK(bitmap) && n < |bitmap| && i < WORD
    ensures MapOK(BitOn(bitmap, n, i), slot, chunks + {WORD * n + i}) && WordsOK(BitOn(bitmap, n, i))
  {
  }

  lemma BitOffOK(bitmap: Bitmap, slot: nat, chunks: set<nat>, n: nat, i: nat)
    requires MapOK(bitmap, slot, chunks) && WordsOK(bitmap) && n < |bitmap| && i < WORD
    ensures MapOK(BitOff(bitmap, n, i), slot, chunks - {WORD * n + i}) && WordsOK(BitOff(bitmap, n, i))
  {
  }

  /** All words are full exactly when the page is. */
  lemma FullByWords(bitmap: Bitmap, slot: nat, chunks: set<nat>)
    requires slot < 3 && MapOK(bitmap, slot, chunks) && WordsOK(bitmap) && chunks <= Below(Capacity(slot))
    ensures chunks == Below(Capacity(slot)) <==> forall n | 0 <= n < |bitmap| :: bitmap[n] == Below(WORD)
  {
    Geometry(slot);
    if forall n | 0 <= n < |bitmap| :: bitmap[n] == Below(WORD) {
      forall j: nat | j < Capacity(slot)
        ensures j in chunks
      {
        var n, i := j / WORD, j % WORD;
        assert bitmap[n] == Below(WORD) && i in bitmap[n] && j == WORD * n + i;
      }
    }
    if chunks == Below(Capacity(slot)) {
      forall n | 0 <= n < |bitmap|
        ensures bitmap[n] == Below(WORD)
      {
        forall i: nat | i < WORD
          ensures i in bitmap[n]
        {
          assert WORD * n + i in chunks;
        }
      }
    }
  }

  // ----- counters of the slots

  datatype Stat = Stat(total: int, used: int, reqs: nat, fails: nat)

  /** Chunks in use, or chunks there are, of a slot in one page. */
  function Count(c: Cell, slot: nat, all: bool): int {
    if c.Slab? && c.slot == slot then (if all then Capacity(slot) else |c.chunks|) - Reserved(slot) else 0
  }

  function Tally(cells: seq<Cell>, slot: nat, all: bool, n: nat): int
    requires n <= |cells|
  {
    if n == 0 then 0 else Tally(cells, slot, all, n - 1) + Count(cells[n - 1], slot, all)
  }

  lemma {:induction false} TallyChange(b: Book, c: Book, h: nat, slot: nat, all: bool, n: nat)
    requires SameLive(b, c, h) && n <= |b.cells| && h < |b.cells|
    ensures Tally(c.cells, slot, all, n) - Tally(b.cells, slot, all, n) ==
      if h < n then Count(c.cells[h], slot, all) - Count(b.cells[h], slot, all) else 0
  {
    if n > 0 {
      TallyChange(b, c, h, slot, all, n - 1);
      assert n - 1 != h ==> LiveCell(c.cells[n - 1]) == LiveCell(b.cells[n - 1]);
    }
  }

  predicate StatAt(stats: seq<Stat>, b: Book, slot: nat)
    requires slot < |stats|
  {
    stats[slot].used == Tally(b.cells, slot, false, |b.cells|)
      && stats[slot].total == Tally(b.cells, slot, true, |b.cells|)
  }

  ghost predicate StatsOK(stats: seq<Stat>, b: Book) {
    |stats| == SLOTS && forall slot: nat {:trigger StatAt(stats, b, slot)} | slot < SLOTS :: StatAt(stats, b, slot)
  }

  /** One page changes; the counters of its slot change with it. */
  lemma StatsChange(stats: seq<Stat>, b: Book, stats': seq<Stat>, c: Book, h: nat)
    requires StatsOK(stats, b) && SameLive(b, c, h) && h < |b.cells| && |stats'| == SLOTS
    requires forall k: nat | k < SLOTS ::
      && stats'[k].used - stats[k].used == Count(c.cells[h], k, false) - Count(b.cells[h], k, false)
      && stats'[k].total - stats[k].total == Count(c.cells[h], k, true) - Count(b.cells[h], k, true)
    ensures StatsOK(stats', c)
  {
    forall k: nat | k < SLOTS
      ensures StatAt(stats', c, k)
    {
      assert StatAt(stats, b, k);
      TallyChange(b, c, h, k, false, |b.cells|);
      TallyChange(b, c, h, k, true, |b.cells|);
    }
  }

  // ----- how what is allocated changes

  /** Everything allocated stays so, with its size, but for the address p. */
  ghost predicate LiveButFor(b: Book, c: Book, p: int) {
    forall a: int {:trigger Live(b, a)} {:trigger Live(c, a)} | a != p ::
      (Live(c, a) <==> Live(b, a)) && (Live(b, a) ==> Extent(c, a) == Extent(b, a))
  }

  /** A whole run, or the first chunk of a page, comes or goes. */
  lemma LiveByPage(b: Book, c: Book, h: nat, p: int)
    requires SameLive(b, c, h) && h < |b.cells|
    requires forall a: int | a / PAGE_SIZE == h && a != p :: !Live(b, a) && !Live(c, a)
    ensures LiveButFor(b, c, p)
  {
    forall a: int | a != p
      ensures (Live(c, a) <==> Live(b, a)) && (Live(b, a) ==> Extent(c, a) == Extent(b, a))
    {
      if a >= 0 && a / PAGE_SIZE != h && a / PAGE_SIZE < |b.cells| {
        assert LiveCell(c.cells[a / PAGE_SIZE]) == LiveCell(b.cells[a / PAGE_SIZE]);
      }
    }
  }

  /** One chunk of a page comes or goes. */
  lemma LiveByChunk(b: Book, c: Book, h: nat, slot: nat, j: nat)
    requires SameLive(b, c, h) && h < |b.cells| && slot < SLOTS && j < Capacity(slot)
    requires b.cells[h].Slab? && c.cells[h].Slab? && b.cells[h].slot == c.cells[h].slot == slot
    requires forall x | x != j :: x in b.cells[h].chunks <==> x in c.cells[h].chunks
    ensures LiveButFor(b, c, h * PAGE_SIZE + j * Size(slot))
  {
    var p := h * PAGE_SIZE + j * Size(slot);
    forall a: int | a != p
      ensures (Live(c, a) <==> Live(b, a)) && (Live(b, a) ==> Extent(c, a) == Extent(b, a))
    {
      if a >= 0 && a / PAGE_SIZE < |b.cells| {
        if a / PAGE_SIZE != h {
          assert LiveCell(c.cells[a / PAGE_SIZE]) == LiveCell(b.cells[a / PAGE_SIZE]);
        } else {
          ChunkAddress(slot, a % PAGE_SIZE);
        }
      }
    }
  }

  lemma ChunkAddress(slot: nat, off: nat)
    requires slot < SLOTS && off < PAGE_SIZE
    ensures off % Size(slot) == 0 ==> off == off / Size(slot) * Size(slot)
  {
  }

  /** The address of a chunk leads back to it. */
  lemma AddressOf(h: nat, slot: nat, j: nat)
    requires slot < SLOTS && j < Capacity(slot)
    ensures var p := h * PAGE_SIZE + j * Size(slot);
      p / PAGE_SIZE == h && p % PAGE_SIZE == j * Size(slot) && p % PAGE_SIZE % Size(slot) == 0
      && p % PAGE_SIZE / Size(slot) == j
  {
    var off := j * Size(slot);
    Scaled(slot, j);
    assert (h * PAGE_SIZE + off) / PAGE_SIZE == h && (h * PAGE_SIZE + off) % PAGE_SIZE == off;
  }

  lemma Scaled(slot: nat, j: nat)
    requires slot < SLOTS && j < Capacity(slot)
    ensures j * Size(slot) < PAGE_SIZE && j * Size(slot) % Size(slot) == 0 && j * Size(slot) / Size(slot) == j
  {
    match slot
    case 0 => case 1 => case 2 => case 3 => case 4 => case 5 => case 6 => case 7 => case _ =>
  }

  lemma Lengths(maps: seq<Bitmap>, stats: seq<Stat>, b: Book)
    requires MapsOK(maps, b) && StatsOK(stats, b)
    ensures |maps| == |b.cells| && |stats| == SLOTS
  {
  }

  lemma PageKnown(maps: seq<Bitmap>, b: Book, page: nat)
    requires ChunksOK(b) && MapsOK(maps, b) && page < |b.cells|
    ensures ChunksAt(b.cells[page]) && page < |maps| && MapsAt(maps, b, page)
  {
  }

  /** What is left when the last chunk of a small page goes. */
  lemma EmptyByWords(bitmap: Bitmap, slot: nat, chunks: set<nat>)
    requires slot < 3 && MapOK(bitmap, slot, chunks) && WordsOK(bitmap) && chunks <= Below(Capacity(slot))
    ensures chunks <= Below(Reserved(slot)) <==>
      bitmap[0] - Below(Reserved(slot)) == {} && forall n | 0 < n < |bitmap| :: bitmap[n] == {}
  {
    Geometry(slot);
    if chunks <= Below(Reserved(slot)) {
      forall n, i: nat | 0 <= n < |bitmap| && i in bitmap[n]
        ensures n == 0 && i < Reserved(slot)
      {
        assert i < WORD && WORD * n + i in chunks;
      }
    }
    if bitmap[0] - Below(Reserved(slot)) == {} && forall n | 0 < n < |bitmap| :: bitmap[n] == {} {
      forall j | j in chunks
        ensures j in Below(Reserved(slot))
      {
        var n, i := j / WORD, j % WORD;
        assert j == WORD * n + i && i in bitmap[n];
        if n == 0 {
          assert i !in bitmap[0] - Below(Reserved(slot));
        }
      }
    }
  }

  function BitsOf(w: Word): set<nat> {
    if w.Bits? || w.BigBits? then w.bits else {}
  }

  function WithBits(w: Word, bits: set<nat>): Word {
    if w.Bits? || w.BigBits? then w.(bits := bits) else w
  }

  lemma NotFull(slot: nat, chunks: set<nat>)
    requires chunks <= Below(Capacity(slot)) && forall x: nat | x < Capacity(slot) :: x in chunks
    ensures chunks == Below(Capacity(slot))
  {
  }

  // ----- from a size to a slot

  function Pow2(k: nat): nat {
    if k == 0 then 1 else 2 * Pow2(k - 1)
  }

  /** x shifted right by k bits. */
  function Shifted(x: nat, k: nat): nat {
    if k == 0 then x else Shifted(x, k - 1) / 2
  }

  lemma {:induction false} ShiftedFront(x: nat, k: nat)
    requires k > 0
    ensures Shifted(x, k) == Shifted(x / 2, k - 1)
  {
    if k > 1 {
      ShiftedFront(x, k - 1);
    }
  }

  lemma {:induction false} ShiftedOut(x: nat, k: nat)
    ensures Shifted(x, k) == 0 <==> x < Pow2(k)
  {
    if k > 0 {
      ShiftedFront(x, k);
      ShiftedOut(x / 2, k - 1);
    }
  }

  /** The slot with the smallest chunks that are large enough. */
  predicate Fits(slot: nat, size: nat) {
    slot < SLOTS && size <= Size(slot) && (slot > 0 ==> Size(slot - 1) < size)
  }

  /** One call is counted for the slot that fits, as failed if it did. */
  ghost predicate Noted(was: seq<Stat>, now: seq<Stat>, size: nat, ok: bool) {
    |was| == |now| == SLOTS
    && forall k | 0 <= k < SLOTS ::
      if size <= MAX_SIZE && Fits(k, size) then
        now[k].reqs == was[k].reqs + 1 && now[k].fails == was[k].fails + if ok then 0 else 1
      else
        now[k] == was[k]
  }

  lemma {:induction false} FitsOne(slot: nat, k: nat, size: nat)
    requires Fits(slot, size) && Fits(k, size) && slot <= k
    ensures slot == k
  {
    if slot < k {
      SizesGrow(slot, k - 1);
    }
  }

  lemma {:induction false} SizesGrow(a: nat, b: nat)
    requires a <= b < SLOTS
    ensures Size(a) <= Size(b)
    decreases b - a
  {
    if a < b {
      SizesGrow(a, b - 1);
    }
  }

  method SlotFor(size: nat) returns (slot: nat)
    requires size <= MAX_SIZE
    ensures Fits(slot, size)
  {
    if size > 8 {
      var shift, s := 1, (size - 1) / 2;
      while s > 0
        invariant shift >= 1 && s == Shifted(size - 1, shift) && Shifted(size - 1, shift - 1) != 0
      {
        s := s / 2;
        shift := shift + 1;
      }
      ShiftedOut(size - 1, shift);
      ShiftedOut(size - 1, shift - 1);
      Powers(shift);
      slot := shift - 3;
    } else {
      slot := 0;
    }
  }

  lemma Powers(k: nat)
    requires k > 0 && Pow2(k - 1) < MAX_SIZE && Pow2(k) > 8
    ensures 4 <= k <= 11 && Size(k - 3) == Pow2(k) && Size(k - 4) == Pow2(k - 1)
  {
    if k > 11 {
      PowerGrows(11, k - 1);
    }
  }

  lemma {:induction false} PowerGrows(i: nat, k: nat)
    requires i <= k
    ensures Pow2(i) <= Pow2(k)
  {
    if i < k {
      PowerGrows(i, k - 1);
    }
  }

  // ----- one chunk more or less, for all that a page of chunks is part of

  lemma ChunksChange(b: Book, c: Book, h: nat)
    requires ChunksOK(b) && SameLive(b, c, h) && h < |b.cells| && ChunksAt(c.cells[h])
    ensures ChunksOK(c)
  {
    forall i | 0 <= i < |c.cells|
      ensures ChunksAt(c.cells[i])
    {
      assert ChunksAt(b.cells[i]);
      assert i != h ==> LiveCell(c.cells[i]) == LiveCell(b.cells[i]);
    }
  }

  lemma SameLiveTrans(a: Book, b: Book, c: Book, h: nat)
    requires SameLive(a, b, h) && SameLive(b, c, h)
    ensures SameLive(a, c, h)
  {
    forall i | 0 <= i < |a.cells| && i != h
      ensures LiveCell(c.cells[i]) == LiveCell(a.cells[i])
    {
      assert LiveCell(b.cells[i]) == LiveCell(a.cells[i]);
    }
  }

  /** A chunk j of page h that was free is taken, or the other way round. */
  predicate OneMore(b: Book, c: Book, h: nat, slot: nat, j: nat) {
    h < |b.cells| && h < |c.cells| && slot < SLOTS && Reserved(slot) <= j < Capacity(slot)
    && b.cells[h].Slab? && b.cells[h].slot == slot && j !in b.cells[h].chunks
    && c.cells[h] == Slab(slot, b.cells[h].chunks + {j})
  }

  lemma OneMoreLive(b: Book, c: Book, h: nat, slot: nat, j: nat)
    requires OneMore(b, c, h, slot, j) && SameLive(b, c, h)
    ensures var p := h * PAGE_SIZE + j * Size(slot);
      !Live(b, p) && Live(c, p) && Extent(c, p) == Size(slot) && LiveButFor(b, c, p) && LiveButFor(c, b, p)
  {
    AddressOf(h, slot, j);
    LiveByChunk(b, c, h, slot, j);
  }

  /** The counters when one chunk more is in use. */
  lemma OneMoreCount(b: Book, c: Book, h: nat, slot: nat, j: nat)
    requires OneMore(b, c, h, slot, j)
    ensures forall k: nat | k < SLOTS ::
      && Count(c.cells[h], k, false) - Count(b.cells[h], k, false) == (if k == slot then 1 else 0)
      && Count(c.cells[h], k, true) == Count(b.cells[h], k, true)
  {
  }

  /** A free page becomes a page of chunks with one taken, or the other way round. */
  predicate NewPage(b: Book, c: Book, h: nat, slot: nat, j: nat) {
    h < |b.cells| && h < |c.cells| && slot < SLOTS && Reserved(slot) <= j < Capacity(slot)
    && LiveCell(b.cells[h]) == Inside && c.cells[h] == Slab(slot, Below(Reserved(slot)) + {j})
  }

  lemma NewPageLive(b: Book, c: Book, h: nat, slot: nat, j: nat)
    requires NewPage(b, c, h, slot, j) && SameLive(b, c, h)
    ensures var p := h * PAGE_SIZE + j * Size(slot);
      !Live(b, p) && Live(c, p) && Extent(c, p) == Size(slot) && LiveButFor(b, c, p) && LiveButFor(c, b, p)
  {
    var p := h * PAGE_SIZE + j * Size(slot);
    AddressOf(h, slot, j);
    forall a: int | a / PAGE_SIZE == h && a != p
      ensures !Live(b, a) && !Live(c, a)
    {
      if Live(c, a) {
        assert a % PAGE_SIZE / Size(slot) == j;
        ChunkAddress(slot, a % PAGE_SIZE);
      }
    }
    LiveByPage(b, c, h, p);
  }

  lemma NewPageCount(b: Book, c: Book, h: nat, slot: nat, j: nat)
    requires NewPage(b, c, h, slot, j)
    ensures forall k: nat | k < SLOTS ::
      && Count(c.cells[h], k, false) - Count(b.cells[h], k, false) == (if k == slot then 1 else 0)
      && Count(c.cells[h], k, true) - Count(b.cells[h], k, true)
         == (if k == slot then Capacity(slot) - Reserved(slot) else 0)
  {
    BelowSize(Reserved(slot));
  }

  /** A free run becomes an allocated one, or the other way round. */
  lemma RunLive(b: Book, c: Book, h: nat)
    requires SameLive(b, c, h) && h < |b.cells| && LiveCell(b.cells[h]) == Inside && c.cells[h].Used?
    ensures var p := h * PAGE_SIZE;
      !Live(b, p) && Live(c, p) && Extent(c, p) == c.cells[h].len * PAGE_SIZE && LiveButFor(b, c, p)
        && LiveButFor(c, b, p)
    ensures forall k: nat, all | k < SLOTS :: Count(c.cells[h], k, all) == Count(b.cells[h], k, all) == 0
  {
    forall a: int | a / PAGE_SIZE == h && a != h * PAGE_SIZE
      ensures !Live(b, a) && !Live(c, a)
    {
    }
    LiveByPage(b, c, h, h * PAGE_SIZE);
  }

  /** p is the address of one of the chunks that hold the bitmap of a page. */
  predicate OnBitmap(b: Book, p: int) {
    p >= 0 && p / PAGE_SIZE < |b.cells|
    && match b.cells[p / PAGE_SIZE]
       case Slab(slot, _) => p % PAGE_SIZE % Size(slot) == 0 && p % PAGE_SIZE / Size(slot) < Reserved(slot)
       case _ => false
  }

  /** The slot of a page of chunks, from its record. */
  function SlotOf(page: Page): int {
    if page.kind == EXACT then 3
    else if page.slab.Shift? || page.slab.BigBits? then page.slab.shift - 3 else -1
  }

  /** What the bitmap says is taken is allocated, or holds the bitmap itself. */
  lemma TakenIsLive(b: Book, p: nat)
    requires ChunksOK(b) && p / PAGE_SIZE < |b.cells| && b.cells[p / PAGE_SIZE].Slab?
    requires p % PAGE_SIZE % Size(b.cells[p / PAGE_SIZE].slot) == 0
    ensures var c := b.cells[p / PAGE_SIZE];
      p % PAGE_SIZE / Size(c.slot) in c.chunks <==> Live(b, p) || OnBitmap(b, p)
    ensures !(Live(b, p) && OnBitmap(b, p))
  {
    var c := b.cells[p / PAGE_SIZE];
    assert ChunksAt(c);
    assert p % PAGE_SIZE / Size(c.slot) < Reserved(c.slot) ==> p % PAGE_SIZE / Size(c.slot) in Below(Reserved(c.slot));
  }

  /** Once everything is given back, the pool is one free run again. */
  lemma AllFreed(b: Book)
    requires Tiled(b) && Apart(b) && ChunksOK(b) && AtRest(b, -1)
    requires forall a: int :: !Live(b, a)
    ensures b.cells[0] == Free(|b.cells|) && forall i | 0 < i < |b.cells| :: b.cells[i] == Inside
  {
    forall i: nat | i < |b.cells|
      ensures b.cells[i] == Inside || b.cells[i].Free?
    {
      assert !Live(b, i * PAGE_SIZE);
      if b.cells[i].Slab? {
        assert ChunksAt(b.cells[i]);
        var j :| j in b.cells[i].chunks && j !in Below(Reserved(b.cells[i].slot));
        assert j in Below(Capacity(b.cells[i].slot));
        AddressOf(i, b.cells[i].slot, j);
        assert !Live(b, i * PAGE_SIZE + j * Size(b.cells[i].slot));
      }
    }
    assert Owned(b, 0) && ApartAt(b, 0);
    assert Spans(b, 0);
    if b.cells[0].len < |b.cells| {
      NextIsHead(b, 0);
    }
    InsideRun(b, 0);
  }

  // ----- the number of free pages

  function RunLen(b: Book, h: nat): nat {
    if h < |b.cells| then Len(b.cells[h]) else 0
  }

  function TotalLen(b: Book, l: seq<nat>): nat {
    if l == [] then 0 else RunLen(b, l[0]) + TotalLen(b, l[1..])
  }

  ghost function Covered(b: Book, l: seq<nat>): set<nat> {
    if l == [] then {} else Range(l[0], RunLen(b, l[0])) + Covered(b, l[1..])
  }

  predicate InRun(b: Book, h: nat, i: nat) {
    h <= i < h + RunLen(b, h)
  }

  lemma {:induction false} CoveredBy(b: Book, l: seq<nat>, i: nat)
    ensures i in Covered(b, l) <==> exists h :: h in l && InRun(b, h, i)
  {
    if l != [] {
      CoveredBy(b, l[1..], i);
      assert i in Range(l[0], RunLen(b, l[0])) <==> InRun(b, l[0], i);
      assert l == [l[0]] + l[1..];
    }
  }

  lemma CoveredOnce(b: Book, l: seq<nat>, i: nat)
    requires Tiled(b) && Distinct(l) && l != [] && InRun(b, l[0], i)
    requires forall h | h in l :: h < |b.cells| && b.cells[h] != Inside
    ensures i !in Covered(b, l[1..])
  {
    CoveredBy(b, l[1..], i);
    hide Covered;
    if i in Covered(b, l[1..]) {
      var h :| h in l[1..] && InRun(b, h, i);
      FirstOnce(l, h);
      assert l[0] in l;
      hide Tiled, Distinct;
      RunsDisjoint(b, l[0], h);
    }
  }

  lemma {:induction false} CoveredSize(b: Book, l: seq<nat>)
    requires Tiled(b) && Distinct(l) && forall h | h in l :: h < |b.cells| && b.cells[h] != Inside
    ensures |Covered(b, l)| == TotalLen(b, l)
  {
    if l != [] {
      forall h | h in l[1..]
        ensures h in l
      {
        FirstOnce(l, h);
      }
      CoveredSize(b, l[1..]);
      var r := Range(l[0], RunLen(b, l[0]));
      forall i | i in r
        ensures i !in Covered(b, l[1..])
      {
        CoveredOnce(b, l, i);
      }
      assert r !! Covered(b, l[1..]);
      hide Tiled, Distinct;
    }
  }

  lemma FirstOnce(l: seq<nat>, h: nat)
    requires Distinct(l) && l != [] && h in l[1..]
    ensures h != l[0] && h in l
  {
    var j :| 0 <= j < |l| - 1 && l[1..][j] == h;
    assert l[j + 1] == h;
  }

  /** The free pages are those of the runs on the free list, each counted once. */
  lemma FreeTotal(s: Pages, b: Book)
    requires Inv(s, b) && AtRest(b, -1)
    ensures forall h | h in b.lists[FREE] :: h < |b.cells| && b.cells[h].Free?
    ensures |Avail(b)| == TotalLen(b, b.lists[FREE])
  {
    var l := b.lists[FREE];
    FreeDistinct(s, b);
    forall h | h in l
      ensures h < |b.cells| && b.cells[h].Free?
    {
      assert h in b.lists[FREE];
      assert Record(s.pages[h], b, h);
    }
    CoveredSize(b, l);
    forall i: nat
      ensures i in Avail(b) <==> i in Covered(b, l)
    {
      AvailAt(b, i);
      CoveredBy(b, l, i);
      if i in Avail(b) {
        assert b.own[i] in l && InRun(b, b.own[i], i);
      }
      if i in Covered(b, l) {
        var h :| h in l && InRun(b, h, i);
        assert Spans(b, h);
        assert Owned(b, i);
      }
    }
    assert Avail(b) == Covered(b, l);
  }

  // ----- the pool at the start

  const PAGE_RECORD := 24
  const STAT_RECORD := 32

  function Aligned(x: nat): (r: nat)
    ensures r % PAGE_SIZE == 0 && x <= r < x + PAGE_SIZE
  {
    (x + PAGE_SIZE - 1) / PAGE_SIZE * PAGE_SIZE
  }

  /** At most one page less than were counted fits behind the aligned start. */
  lemma PagesFit(p: nat, end: nat, count: nat)
    requires p <= end && count >= 1 && count == (end - p) / (PAGE_SIZE + PAGE_RECORD)
    ensures var start := Aligned(p + count * PAGE_RECORD);
      start <= end && count - 1 <= (end - start) / PAGE_SIZE
  {
    var start := Aligned(p + count * PAGE_RECORD);
    assert count * (PAGE_SIZE + PAGE_RECORD) <= end - p;
    assert (count - 1) * PAGE_SIZE <= end - start;
  }

  /** Behind the list heads and the counters. */
  function RecordsAt(slots: nat): nat {
    slots + SLOTS * PAGE_RECORD + SLOTS * STAT_RECORD
  }

  /** The page records that ngx_slab_init clears. */
  function RecordCount(slots: nat, end: nat): nat {
    if end < RecordsAt(slots) then 0 else (end - RecordsAt(slots)) / (PAGE_SIZE + PAGE_RECORD)
  }

  function FirstPage(slots: nat, end: nat): nat {
    Aligned(RecordsAt(slots) + RecordCount(slots, end) * PAGE_RECORD)
  }

  /** The pages of the pool: no more than there are records, and no more than lie before the end of the zone. */
  function PageCount(slots: nat, end: nat): nat {
    if end < FirstPage(slots, end) then 0
    else
      var whole := (end - FirstPage(slots, end)) / PAGE_SIZE;
      if RecordCount(slots, end) <= whole then RecordCount(slots, end) else whole
  }

  /** The layout as ngx_slab_init computes it. */
  lemma LayoutIs(slots: nat, end: nat)
    requires PageCount(slots, end) > 0
    ensures RecordsAt(slots) <= end
    ensures RecordCount(slots, end) == (end - RecordsAt(slots)) / (PAGE_SIZE + PAGE_RECORD)
    ensures var first := FirstPage(slots, end);
      && first == Aligned(RecordsAt(slots) + RecordCount(slots, end) * PAGE_RECORD) && first % PAGE_SIZE == 0
      && RecordsAt(slots) + RecordCount(slots, end) * PAGE_RECORD <= first <= end
      && first + PAGE_SIZE * PageCount(slots, end) <= end && RecordCount(slots, end) <= PageCount(slots, end) + 1
      && var m: int := RecordCount(slots, end) - (end - first) / PAGE_SIZE;
         PageCount(slots, end) == if m > 0 then RecordCount(slots, end) - m else RecordCount(slots, end)
  {
    PagesFit(RecordsAt(slots), end, RecordCount(slots, end));
  }

  /** Some pointer that the range test lets through has no record of its own, exactly when the whole pages
      are no fewer than the records; the end of the zone is one then. */
  lemma RecordMissing(slots: nat, end: nat)
    requires PageCount(slots, end) > 0
    ensures var size := end - FirstPage(slots, end);
      (exists p: nat :: p <= size && p / PAGE_SIZE >= RecordCount(slots, end)) <==>
        size / PAGE_SIZE >= RecordCount(slots, end)
  {
    var size := end - FirstPage(slots, end);
    if p: nat :| p <= size && p / PAGE_SIZE >= RecordCount(slots, end) {
      assert p / PAGE_SIZE <= size / PAGE_SIZE;
    }
  }

  function FirstBook(n: nat): Book
    requires n > 0
  {
    Book(seq(n, i => 0), [Free(n)] + seq(n - 1, i => Inside), seq(SLOTS + 1, k => if k == FREE then [0] else []))
  }

  function FirstPages(n: nat): Pages
    requires n > 0
  {
    Pages([Page(Run(n), Head(FREE), Head(FREE), PAGE)] + seq(n - 1, i => ZERO),
          seq(SLOTS + 1, k requires k >= 0 => if k == FREE then At(0) else Head(k)))
  }

  lemma FirstRest(n: nat)
    requires n > 0
    ensures ChunksOK(FirstBook(n)) && MapsOK(seq(n, i => []), FirstBook(n))
    ensures StatsOK(seq(SLOTS, k => Stat(0, 0, 0, 0)), FirstBook(n))
    ensures |FirstBook(n).cells| == n && FirstBook(n).cells[0] == Free(n) && forall a: int :: !Live(FirstBook(n), a)
  {
    var b, stats := FirstBook(n), seq(SLOTS, k => Stat(0, 0, 0, 0));
    forall k: nat | k < SLOTS
      ensures StatAt(stats, b, k)
    {
      NoTally(b, k, false, n);
      NoTally(b, k, true, n);
    }
  }

  lemma FirstInv(n: nat)
    requires n > 0
    ensures Inv(FirstPages(n), FirstBook(n)) && AtRest(FirstBook(n), -1) && |Avail(FirstBook(n))| == n
    ensures ChunksOK(FirstBook(n)) && forall a: int :: !Live(FirstBook(n), a)
  {
    var s, b := FirstPages(n), FirstBook(n);
    assert Tiled(b) by {
      forall i | 0 <= i < n
        ensures Owned(b, i)
      {
      }
      assert Spans(b, 0);
    }
    forall i | 0 <= i < n
      ensures Record(s.pages[i], b, i)
    {
    }
    forall k: nat | k <= SLOTS
      ensures Listed(s, k, b.lists[k])
    {
      if k == FREE {
        assert LinkAt(s, FREE, [0], 0);
      }
    }
    assert ApartAt(b, 0);
    forall i: nat | i < n
      ensures ApartAt(b, i)
    {
    }
    forall i: nat
      ensures i in Avail(b) <==> i in Below(n)
    {
      AvailAt(b, i);
      if i < n {
        assert Owned(b, i);
      }
    }
    assert Avail(b) == Below(n);
    BelowSize(n);
  }

  lemma {:induction false} NoTally(b: Book, slot: nat, all: bool, n: nat)
    requires n <= |b.cells| && forall i | 0 <= i < |b.cells| :: !b.cells[i].Slab?
    ensures Tally(b.cells, slot, all, n) == 0
  {
    if n > 0 {
      NoTally(b, slot, all, n - 1);
    }
  }
}
