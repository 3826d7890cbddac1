/** The open file cache: the index of entries, the queue in order of use, the descriptors and their reference
    counts, with vnode events off. The red-black tree is the ordered map it implements. */
module OpenFileCache {
  import opened Wrappers

  const INVALID := -1

  /** One entry. Entries are known by their addresses. */
  datatype File = File(name: string, fd: int, err: nat, uniq: int, uses: nat, count: int, close: bool, isDir: bool,
                       created: int, accessed: int)

  /** What the system answers. */
  datatype Stat = Fails(err: nat) | Is(uniq: int, dir: bool)
  datatype Opened = NoFile(err: nat) | Fd(fd: int)

  /** All that one call may learn from outside: stat() of the name, open(), fstat() of what was opened, whether
      memory for an entry can be had, what that memory contains, and the time. */
  datatype World = World(stat: Stat, open: Opened, fstat: Stat, memory: bool, address: nat,
                         junkClose: bool, junkDir: bool, now: int)

  /** What the caller asks for. */
  datatype Request = Request(uniq: int, valid: int, minUses: nat, errors: bool, testDir: bool)

  /** The name leads to one file all through the call. */
  predicate Stable(w: World) {
    w.stat.Is? && w.fstat.Is? ==> w.stat == w.fstat
  }

  /** The name led elsewhere when it was looked at and to the file of the entry, again, when it was opened. */
  predicate Swapped(w: World, fd: int, uniq: int) {
    fd != INVALID && w.stat.Is? && w.stat.uniq != uniq && w.open.Fd? && w.fstat == Is(uniq, false)
  }

  /** The name leads to a directory that bears the number of the entry's file, on another file system. */
  predicate Twin(w: World, fd: int, uniq: int) {
    fd != INVALID && w.stat == Is(uniq, true)
  }

  /** A file comes with a descriptor, an error or a directory comes without. */
  predicate Proper(of: Found) {
    of.fd == INVALID <==> of.err != 0 || of.dir
  }

  /** The entry may be used as it is. */
  predicate Current(file: File, q: Request, now: int) {
    (q.uniq == 0 || q.uniq == file.uniq) && now - file.created < q.valid
  }

  // ----- what a call answers

  /** open() tells, and fstat() of what was opened. `room`: there is an entry to put it into. */
  predicate FromOpen(w: World, room: bool, ok: bool, of: Found) {
    && (w.open.NoFile? ==> !ok && of.err == w.open.err)
    && (w.open.Fd? && w.fstat.Fails? ==> !ok && of.err == 0)
    && (w.open.Fd? && w.fstat.Is? && w.fstat.dir ==> ok == room && of == Found(INVALID, 0, w.fstat.uniq, true))
    && (w.open.Fd? && w.fstat.Is? && !w.fstat.dir ==> ok == room && of == Found(w.open.fd, 0, w.fstat.uniq, false))
  }

  /** stat() tells, and open() of what is no directory. */
  predicate FromStat(w: World, room: bool, ok: bool, of: Found) {
    && (w.stat.Fails? ==> !ok && of.err == w.stat.err)
    && (w.stat.Is? && w.stat.dir ==> ok == room && of == Found(INVALID, 0, w.stat.uniq, true))
    && (w.stat.Is? && !w.stat.dir ==> FromOpen(w, room, ok, of))
  }

  /** The name of an entry that holds descriptor d of the file u leads there still, nowhere, or elsewhere. */
  predicate FromFile(d: int, u: int, unused: bool, w: World, ok: bool, of: Found) {
    && (w.stat.Fails? ==> !ok && of.err == w.stat.err)
    && (w.stat == Is(u, false) ==> ok && of == Found(d, 0, u, false))
    && (w.stat == Is(u, true) ==> ok == (unused || w.memory) && of == Found(d, 0, u, true))
    && (w.stat.Is? && w.stat.uniq != u ==>
          FromOpen(w, unused || w.memory || w.fstat == Is(u, false), ok, of))
  }

  /** The entry holds a descriptor, an error or a directory. */
  predicate Holds(file: File) {
    file.fd != INVALID || file.err != 0 || file.isDir
  }

  /** What the caller is told, by the fields of the entry of the name, if there is one. */
  predicate Told(entry: Option<File>, q: Request, w: World, ok: bool, of: Found) {
    match entry
    case None => if q.testDir then FromStat(w, w.memory, ok, of) else FromOpen(w, w.memory, ok, of)
    case Some(file) =>
      if Holds(file) && (q.uniq == 0 || q.uniq == file.uniq) && w.now - file.created < q.valid then
        if file.err != 0 then !ok && of.err == file.err
        else ok && of == Found(if file.isDir then INVALID else file.fd, 0, file.uniq, file.isDir)
      else if file.fd != INVALID then FromFile(file.fd, file.uniq, file.count == 0, w, ok, of)
      else if q.testDir || file.isDir then FromStat(w, true, ok, of)
      else FromOpen(w, true, ok, of)
  }

  /** Whether an entry answers: one that found something, or an error that was asked for and has a place. The time of
      an entry is that of the call, unless it was young enough. */
  predicate Remembered(entry: Option<File>, q: Request, w: World, ok: bool, of: Found, e: int, created: int) {
    match entry
    case None => (e >= 0 <==> ok || (q.errors && of.err != 0 && w.memory)) && (e >= 0 ==> created == w.now)
    case Some(file) =>
      if Holds(file) && (q.uniq == 0 || q.uniq == file.uniq) && w.now - file.created < q.valid then
        e >= 0 && created == file.created
      else
        && (e >= 0 <==>
              ok || (q.errors && of.err != 0 && (file.fd == INVALID || file.count == 0 || w.memory)))
        && (e >= 0 ==> created == w.now)
  }

  /** What looking at the name of an entry again gives. */
  predicate Looked(file: File, q: Request, w: World, ok: bool, of: Found) {
    if file.fd != INVALID then FromFile(file.fd, file.uniq, true, w, ok, of)
    else if q.testDir || file.isDir then FromStat(w, true, ok, of)
    else FromOpen(w, true, ok, of)
  }

  lemma TellsFailure(file: File, q: Request, w: World, of: Found)
    requires Looked(file, q, w, false, of) && (of.err == 0 || !q.errors) && !(Holds(file) && Current(file, q, w.now))
    ensures Told(Some(file), q, w, false, of) && Remembered(Some(file), q, w, false, of, NOBODY, 0)
  {
  }

  /** The entry takes what was found. */
  lemma TellsRefresh(file: File, q: Request, w: World, ok: bool, of: Found, f: nat)
    requires Looked(file, q, w, ok, of) && (ok ==> of.err == 0) && (!ok ==> of.err != 0 && q.errors)
    requires file.fd == INVALID || (ok && !of.dir && of.uniq == file.uniq)
    requires !(Holds(file) && Current(file, q, w.now))
    ensures Told(Some(file), q, w, ok, of) && Remembered(Some(file), q, w, ok, of, f, w.now)
  {
  }

  /** Another entry takes it, if there is one. */
  lemma TellsReplace(file: File, q: Request, w: World, ok: bool, of: Found, e: int, created: int)
    requires Looked(file, q, w, ok, of) && (ok ==> of.err == 0) && (!ok ==> of.err != 0 && q.errors)
    requires file.fd != INVALID && !(ok && !of.dir && of.uniq == file.uniq)
    requires !(Holds(file) && Current(file, q, w.now))
    requires (e >= 0 <==> file.count == 0 || w.memory) && (e >= 0 ==> created == w.now)
    ensures Told(Some(file), q, w, ok && e >= 0, of) && Remembered(Some(file), q, w, ok && e >= 0, of, e, created)
  {
  }

  type Files = map<nat, File>

  function Entry(files: Files, tree: map<string, nat>, name: string): Option<File> {
    if name in tree && tree[name] in files then Some(files[tree[name]]) else None
  }

  predicate Distinct(q: seq<nat>) {
    forall i, j | 0 <= i < j < |q| :: q[i] != q[j]
  }

  function Without(q: seq<nat>, x: nat): (r: seq<nat>)
    ensures forall y: nat :: y in r <==> y in q && y != x
    ensures Distinct(q) ==> Distinct(r) && |r| == if x in q then |q| - 1 else |q|
  {
    if q == [] then []
    else
      assert q == [q[0]] + q[1..];
      assert forall i | 0 <= i < |q| - 1 :: q[1..][i] == q[i + 1];
      assert Distinct(q) ==> q[0] !in q[1..];
      var r := Without(q[1..], x);
      if q[0] == x then r else
        assert forall i | 0 < i < |r| + 1 :: ([q[0]] + r)[i] == r[i - 1] && r[i - 1] in r;
        [q[0]] + r
  }

  // ----- entries and descriptors

  /** The open descriptors with the entry each belongs to, the descriptors that no entry knows any more, and
      what the callers of each entry were given and have not cleaned up yet. */
  datatype Books = Books(owner: map<int, nat>, lost: set<int>, held: map<nat, seq<int>>)

  predicate FileOK(f: nat, file: File, b: Books) {
    f in b.held && file.count == |b.held[f]|
    && (file.fd != INVALID ==> file.fd in b.owner && b.owner[file.fd] == f)
    && (file.count > 0 ==> file.fd != INVALID)
    && (file.err != 0 || file.isDir ==> file.fd == INVALID)
  }

  ghost predicate HeldOK(f: nat, file: File, b: Books) {
    f in b.held && forall i | 0 <= i < |b.held[f]| :: b.held[f][i] == file.fd || b.held[f][i] in b.lost
  }

  ghost predicate Core(files: Files, b: Books) {
    b.held.Keys == files.Keys
    && (forall f {:trigger files[f]} | f in files :: FileOK(f, files[f], b) && HeldOK(f, files[f], b))
    && (forall d {:trigger b.owner[d]} | d in b.owner ::
      d != INVALID && b.owner[d] in files && files[b.owner[d]].fd == d)
    && b.owner.Keys !! b.lost && INVALID !in b.lost
  }

  function Open(b: Books): set<int> {
    b.owner.Keys + b.lost
  }

  // ----- the index

  const NOBODY := -1

  /** Tree and queue hold the same entries but for x, which is in the tree only. All others are kept for
      their callers alone, but for z, which is on its way out. */
  ghost predicate Index(files: Files, tree: map<string, nat>, queue: seq<nat>, x: int, z: int) {
    Distinct(queue)
    && (forall f {:trigger f in queue} | f in queue :: f in files && f != x && f != z && InTree(files, tree, f))
    && (x >= 0 ==> x in files && x != z && InTree(files, tree, x))
    && (forall n {:trigger tree[n]} | n in tree ::
      tree[n] in files && files[tree[n]].name == n && (tree[n] in queue || tree[n] == x))
    && (forall f {:trigger files[f]} | f in files && f !in queue && f != x && f != z ::
      files[f].close && files[f].count > 0)
  }

  predicate InTree(files: Files, tree: map<string, nat>, f: nat)
    requires f in files
  {
    files[f].name in tree && tree[files[f].name] == f && (files[f].err == 0 ==> !files[f].close)
  }

  // ----- steps

  /** The fields that tree and queue depend on. */
  predicate SameIndexed(a: File, b: File) {
    a.name == b.name && (!(a.err == 0 && a.close) ==> !(b.err == 0 && b.close))
      && (a.close && a.count > 0 ==> b.close && b.count > 0)
  }

  lemma IndexKept(files: Files, tree: map<string, nat>, queue: seq<nat>, x: int, z: int, f: nat, file: File)
    requires Index(files, tree, queue, x, z) && f in files
    requires (SameIndexed(files[f], file) || (f == z && files[f].name == file.name))
    ensures Index(files[f := file], tree, queue, x, z)
  {
  }

  /** close(): only what is open, and only when no caller uses the entry. */
  lemma Closes(files: Files, b: Books, f: nat)
    requires Core(files, b) && f in files && files[f].fd != INVALID && files[f].count == 0
    ensures files[f].fd in b.owner
    ensures Core(files[f := files[f].(fd := INVALID)], b.(owner := b.owner - {files[f].fd}))
  {
    var d := files[f].fd;
    assert FileOK(f, files[f], b);
    var r, c := files[f := files[f].(fd := INVALID)], b.(owner := b.owner - {d});
    forall g | g in r
      ensures FileOK(g, r[g], c) && HeldOK(g, r[g], c)
    {
      assert FileOK(g, files[g], b) && HeldOK(g, files[g], b);
    }
  }

  lemma Frees(files: Files, b: Books, f: nat)
    requires Core(files, b) && f in files && files[f].fd == INVALID && files[f].count == 0
    ensures Core(files - {f}, b.(held := b.held - {f}))
  {
    var r, c := files - {f}, b.(held := b.held - {f});
    forall g | g in r
      ensures FileOK(g, r[g], c) && HeldOK(g, r[g], c)
    {
      assert FileOK(g, files[g], b) && HeldOK(g, files[g], b);
    }
  }

  /** Entries but for f are as they were. */
  ghost predicate OthersStay(files: Files, files': Files, f: nat) {
    forall g {:trigger g in files'} {:trigger g in files} | g != f ::
      (g in files' <==> g in files) && (g in files ==> files'[g] == files[g])
  }

  /** Entries used since `time` stay, as they are. */
  ghost predicate RecentStay(files: Files, queue: seq<nat>, files': Files, queue': seq<nat>, time: int) {
    forall f {:trigger f in queue} | f in queue && f in files && files[f].accessed >= time ::
      f in queue' && f in files' && files'[f] == files[f]
  }

  lemma OthersAnyway(files: Files, f: nat, file: File)
    ensures OthersStay(files, files, f) && OthersStay(files, files[f := file], f)
    ensures OthersStay(files, files - {f}, f) && OthersStay(files, files[f := file] - {f}, f)
  {
  }

  lemma RecentNext(files: Files, queue: seq<nat>, files1: Files, queue1: seq<nat>, files2: Files, queue2: seq<nat>,
    time: int)
    requires RecentStay(files, queue, files1, queue1, time) && queue1 != [] && Distinct(queue1)
    requires queue2 == queue1[..|queue1| - 1] && OthersStay(files1, files2, queue1[|queue1| - 1])
    requires var l := queue1[|queue1| - 1]; l in files1 && files1[l].accessed < time
    ensures RecentStay(files, queue, files2, queue2, time)
  {
    var l := queue1[|queue1| - 1];
    forall f | f in queue && f in files && files[f].accessed >= time
      ensures f in queue2 && f in files2 && files2[f] == files[f]
    {
      assert f in queue1 && f != l && f in files1;
      assert queue1 == queue2 + [l];
    }
  }

  lemma RecentOne(files: Files, queue: seq<nat>, files': Files, queue': seq<nat>, time: int, f: nat)
    requires RecentStay(files, queue, files', queue', time) && f in queue && f in files && files[f].accessed >= time
    ensures f in queue' && f in files' && files'[f] == files[f]
  {
  }

  lemma QueueDistinct(files: Files, tree: map<string, nat>, queue: seq<nat>)
    requires Index(files, tree, queue, NOBODY, NOBODY)
    ensures Distinct(queue)
  {
  }

  lemma AllListed(files: Files, tree: map<string, nat>, queue: seq<nat>)
    requires Index(files, tree, queue, NOBODY, NOBODY)
    ensures forall f | f in queue :: f in files
  {
  }

  lemma Touches(files: Files, b: Books, f: nat, now: int)
    requires Core(files, b) && f in files
    ensures Core(files[f := files[f].(accessed := now)], b)
  {
    FieldKept(files, b, f, files[f].(accessed := now));
  }

  lemma Dequeued(files: Files, tree: map<string, nat>, queue: seq<nat>, f: nat)
    requires Index(files, tree, queue, NOBODY, NOBODY) && f in queue
    ensures Index(files, tree, Without(queue, f), f, NOBODY)
  {
  }

  lemma Enqueued(files: Files, tree: map<string, nat>, queue: seq<nat>, f: nat)
    requires Index(files, tree, queue, f, NOBODY)
    ensures Index(files, tree, [f] + queue, NOBODY, NOBODY)
  {
    var q := [f] + queue;
    assert f !in queue;
    assert forall i | 0 < i < |q| :: q[i] == queue[i - 1];
  }

  lemma Unindexed(files: Files, tree: map<string, nat>, queue: seq<nat>, f: nat)
    requires Index(files, tree, queue, f, NOBODY)
    ensures Index(files, tree - {files[f].name}, queue, NOBODY, f)
  {
  }

  /** An entry on its way out is gone, or is kept for its callers. */
  lemma Settled(files: Files, tree: map<string, nat>, queue: seq<nat>, f: nat)
    requires Index(files, tree, queue, NOBODY, f) && f in files && f !in queue
    ensures Index(files - {f}, tree, queue, NOBODY, NOBODY)
    ensures files[f].close && files[f].count > 0 ==> Index(files, tree, queue, NOBODY, NOBODY)
  {
  }

  class Cache {
    var files: Files
    var tree: map<string, nat>
    var queue: seq<nat>
    var current: int
    const max: nat
    const inactive: int
    ghost var b: Books
    ghost var air: set<int>

    ghost predicate Valid()
      reads this
    {
      Core(files, b) && Index(files, tree, queue, NOBODY, NOBODY) && current == |queue| <= max
    }

    /** Between dequeueing the entry x and putting it back. */
    ghost predicate Detached(x: nat)
      reads this
    {
      x in files && Core(files, b) && Index(files, tree, queue, x, NOBODY) && current == |queue| + 1 <= max
    }

    /** Between taking the entry z out of the index and freeing it. */
    ghost predicate Leaving(z: nat)
      reads this
    {
      Core(files, b) && Index(files, tree, queue, NOBODY, z) && z in files && z !in queue && current == |queue| <= max
    }

    constructor (max: nat, inactive: int)
      ensures Valid() && files == map[] && tree == map[] && Open(b) == air == {}
      ensures this.max == max && this.inactive == inactive
    {
      this.max, this.inactive := max, inactive;
      files, tree, queue, current := map[], map[], [], 0;
      b, air := Books(map[], {}, map[]), {};
    }

    // ----- parts of the calls

    method Close(f: nat)
      requires Core(files, b) && f in files && files[f].fd != INVALID && files[f].count == 0
      modifies `files, `b
      ensures Core(files, b) && files == old(files)[f := old(files)[f].(fd := INVALID)]
      ensures b == old(b).(owner := old(b).owner - {old(files)[f].fd}) && old(files)[f].fd in old(b).owner
    {
      Closes(files, b, f);
      b := b.(owner := b.owner - {files[f].fd});
      files := files[f := files[f].(fd := INVALID)];
    }

    method Free(f: nat)
      requires Core(files, b) && f in files && files[f].fd == INVALID && files[f].count == 0
      modifies `files, `b
      ensures Core(files, b) && files == old(files) - {f} && b == old(b).(held := old(b).held - {f})
    {
      Frees(files, b, f);
      files := files - {f};
      b := b.(held := b.held - {f});
    }

    /** ngx_queue_remove. */
    method Dequeue(f: nat)
      requires Valid() && f in queue
      modifies `queue
      ensures Detached(f) && queue == Without(old(queue), f)
    {
      Dequeued(files, tree, queue, f);
      queue := Without(queue, f);
    }

    /** ngx_queue_insert_head. */
    method Enqueue(f: nat)
      requires Detached(f)
      modifies `queue
      ensures Valid() && queue == [f] + old(queue)
    {
      Enqueued(files, tree, queue, f);
      queue := [f] + queue;
    }

    /** ngx_rbtree_delete and the count of entries. */
    method Unindex(f: nat)
      requires Detached(f)
      modifies `tree, `current
      ensures Leaving(f) && tree == old(tree) - {files[f].name}
    {
      Unindexed(files, tree, queue, f);
      tree := tree - {files[f].name};
      current := current - 1;
    }

    /** An entry out of the index goes, unless a caller still uses it. */
    method Drop(f: nat)
      requires Leaving(f) && (files[f].count > 0 ==> files[f].close)
      modifies `files, `b
      ensures Valid() && b.lost == old(b).lost && Remain(old(files), old(b), files, b)
      ensures old(files)[f].count > 0 ==> files == old(files) && b == old(b)
      ensures old(files)[f].count == 0 ==>
        && files == old(files) - {f} && b.held == old(b).held - {f}
        && b.owner == old(b).owner - {old(files)[f].fd}
    {
      hide Core, Index, Remain;
      NoInvalid(files, b, f);
      RemainSelf(files, b);
      Settled(files, tree, queue, f);
      if files[f].count > 0 {
        return;
      }
      RemainDropped(files, b, f, b.owner - {files[f].fd});
      if files[f].fd != INVALID {
        IndexKept(files, tree, queue, NOBODY, f, f, files[f].(fd := INVALID));
        Close(f);
      }
      Settled(files, tree, queue, f);
      Free(f);
      assert files == old(files) - {f};
      assert b == old(b).(held := old(b).held - {f}, owner := old(b).owner - {old(files)[f].fd});
    }

    /** A field of an entry that nothing depends on. */
    method Touch(f: nat, now: int)
      requires Core(files, b) && f in files
      modifies `files
      ensures Core(files, b) && files == old(files)[f := old(files)[f].(accessed := now)]
    {
      FieldKept(files, b, f, files[f].(accessed := now));
      files := files[f := files[f].(accessed := now)];
    }

    /** ngx_close_cached_file for an entry in the index: it was just used, and its descriptor is kept open only
        when it is used often enough. */
    method CloseListed(f: nat, minUses: nat, now: int)
      requires Valid() && f in queue && files[f].err == 0
      modifies `files, `queue, `b
      ensures Valid() && b.lost == old(b).lost && b.held == old(b).held && queue == [f] + Without(old(queue), f)
      ensures Remain(old(files), old(b), files, b)
      ensures var file, keep := old(files)[f], old(files)[f].uses >= minUses || old(files)[f].count > 0;
        files == old(files)[f := file.(accessed := now, fd := if keep then file.fd else INVALID)]
        && b.owner == if keep then old(b).owner else old(b).owner - {file.fd}
    {
      hide Core, Index, Remain;
      ListedIs(files, tree, queue, f);
      NoInvalid(files, b, f);
      RemainChanged(files, b, f, files[f].(accessed := now), b.owner);
      if files[f].count == 0 {
        RemainChanged(files, b, f, files[f].(accessed := now, fd := INVALID), b.owner - {files[f].fd});
      }
      IndexKept(files, tree, queue, NOBODY, NOBODY, f, files[f].(accessed := now));
      Touch(f, now);
      Dequeue(f);
      Enqueue(f);
      if files[f].uses >= minUses || files[f].count > 0 {
        return;
      }
      if files[f].fd != INVALID {
        IndexKept(files, tree, queue, NOBODY, NOBODY, f, files[f].(fd := INVALID));
        Close(f);
      }
      assert files == old(files)[f := old(files)[f].(accessed := now, fd := INVALID)];
      assert b == old(b).(owner := old(b).owner - {old(files)[f].fd});
    }

    /** ngx_close_cached_file. */
    method CloseCached(f: nat, minUses: nat, now: int)
      requires f in files && if files[f].close then Leaving(f) else Valid() && f in queue && files[f].err == 0
      modifies `files, `queue, `b
      ensures Valid() && b.lost == old(b).lost && Remain(old(files), old(b), files, b)
      ensures old(files)[f].close ==>
        queue == old(queue) && files == if old(files)[f].count > 0 then old(files) else old(files) - {f}
      ensures !old(files)[f].close ==> queue == [f] + Without(old(queue), f)
      ensures !old(files)[f].close && (old(files)[f].uses >= minUses || old(files)[f].count > 0) ==>
        files == old(files)[f := old(files)[f].(accessed := now)]
    {
      NoInvalid(files, b, f);
      if files[f].close {
        Drop(f);
      } else {
        CloseListed(f, minUses, now);
      }
    }

    /** The entry used least recently leaves the cache. */
    method ExpireLast(now: int)
      requires Valid() && queue != []
      modifies this
      ensures Valid() && b.lost == old(b).lost && Remain(old(files), old(b), files, b)
      ensures queue == old(queue)[..|old(queue)| - 1] && air == old(air) && tree.Keys <= old(tree).Keys
      ensures OthersStay(old(files), files, old(queue)[|old(queue)| - 1])
    {
      hide Core, Index, Remain, OthersStay;
      var f := queue[|queue| - 1];
      ListedIs(files, tree, queue, f);
      LastOut(queue);
      Dequeue(f);
      Unindex(f);
      NoInvalid(files, b, f);
      OthersAnyway(files, f, files[f].(close := true));
      if files[f].err == 0 && !files[f].isDir {
        IndexKept(files, tree, queue, NOBODY, f, f, files[f].(close := true));
        FieldKept(files, b, f, files[f].(close := true));
        RemainChanged(files, b, f, files[f].(close := true), b.owner);
        files := files[f := files[f].(close := true)];
        ghost var r := files;
        CloseCached(f, 0, now);
        RemainTrans(old(files), old(b), r, old(b), files, b);
      } else {
        Drop(f);
      }
    }

    /** ngx_expire_old_cached_files: with from == 0 the entry used least recently goes in any case; besides, one or
        two entries go that were not used for long. */
    method Expire(from: nat, now: int)
      requires Valid() && from <= 1
      modifies this
      ensures Valid() && b.lost == old(b).lost && Remain(old(files), old(b), files, b) && air == old(air)
      ensures queue <= old(queue) && |old(queue)| - |queue| <= 3 && tree.Keys <= old(tree).Keys
      ensures from == 0 && old(queue) != [] ==> |queue| < |old(queue)|
      ensures from == 1 ==> RecentStay(old(files), old(queue), files, queue, now - inactive)
      ensures || queue == [] || |old(queue)| - |queue| == 3 - from
              || (queue[|queue| - 1] in files && now - files[queue[|queue| - 1]].accessed <= inactive)
    {
      hide Core, Index, Remain;
      RemainSelf(files, b);
      AllListed(files, tree, queue);
      var n := from;
      while n < 3
        invariant Valid() && b.lost == old(b).lost && Remain(old(files), old(b), files, b) && air == old(air)
        invariant queue <= old(queue) && |old(queue)| - |queue| == n - from && from <= n <= 3
          && tree.Keys <= old(tree).Keys
        invariant from == 1 ==> RecentStay(old(files), old(queue), files, queue, now - inactive)
      {
        if queue == [] {
          return;
        }
        ListedIs(files, tree, queue, queue[|queue| - 1]);
        var file := files[queue[|queue| - 1]];
        n := n + 1;
        if n != 1 && now - file.accessed <= inactive {
          return;
        }
        ghost var r, c, was := files, b, queue;
        QueueDistinct(files, tree, queue);
        ExpireLast(now);
        RemainTrans(old(files), old(b), r, c, files, b);
        if from == 1 {
          RecentNext(old(files), old(queue), r, was, files, queue, now - inactive);
        }
      }
    }

    /** ngx_open_file_cleanup: the caller that was given the i-th descriptor in use is done. */
    method Cleanup(f: nat, ghost i: nat, minUses: nat, now: int)
      requires Valid() && f in files && f in b.held && i < |b.held[f]|
      modifies this
      ensures Valid() && b.lost == old(b).lost && air == old(air)
      ensures var r := old(files)[f := old(files)[f].(count := old(files)[f].count - 1)];
        Remain(r, Released(old(b), f, i), files, b)
      ensures !old(files)[f].close && (old(files)[f].uses >= minUses || old(files)[f].count > 1) && 0 <= inactive ==>
        f in queue && f in files && files[f] == old(files)[f].(count := old(files)[f].count - 1, accessed := now)
    {
      hide Core, Index, Remain;
      NoInvalid(files, b, f);
      ByClose(files, tree, queue, f);
      Releases(files, b, f, i);
      files := files[f := files[f].(count := files[f].count - 1)];
      b := Released(b, f, i);
      ghost var r, c := files, b;
      CloseCached(f, minUses, now);
      ghost var r', c', q' := files, b, queue;
      assert !old(files)[f].close ==> f in q';
      Expire(1, now);
      RemainTrans(r, c, r', c', files, b);
      if !old(files)[f].close && (old(files)[f].uses >= minUses || old(files)[f].count > 1) && 0 <= inactive {
        assert r' == r[f := r[f].(accessed := now)];
        RecentOne(r', q', files, queue, now - inactive, f);
      }
    }

    // ----- ngx_open_cached_file

    /** ngx_open_and_stat_file: the descriptor given is kept when the name still leads to its file; otherwise the
        name is opened. What is opened is in the air until an entry takes it or it is closed. */
    method OpenAndStat(w: World, fd0: int, uniq0: int, testDir: bool) returns (ok: bool, of: Found)
      requires air == {} && (w.open.Fd? ==> w.open.fd != INVALID && w.open.fd !in Open(b))
      requires fd0 != INVALID ==> fd0 in Open(b)
      modifies `air
      ensures fd0 == INVALID ==> if testDir then FromStat(w, true, ok, of) else FromOpen(w, true, ok, of)
      ensures fd0 != INVALID ==> FromFile(fd0, uniq0, true, w, ok, of)
      ensures ok ==> of.err == 0 && (Twin(w, fd0, uniq0) || Proper(of))
      ensures Twin(w, fd0, uniq0) ==> ok && of == Found(fd0, 0, uniq0, true)
      ensures !ok ==> of.fd == INVALID && !of.dir
      ensures if of.fd == INVALID || (of.fd == fd0 && of.uniq == uniq0 && air == {}) then air == {}
              else of.fd !in Open(b) && air == {of.fd}
      ensures Swapped(w, fd0, uniq0) <==> fd0 != INVALID && of.fd != INVALID && of.fd != fd0 && of.uniq == uniq0
    {
      of := Found(INVALID, 0, uniq0, false);
      if fd0 != INVALID {
        if w.stat.Fails? {
          return false, of.(err := w.stat.err);
        }
        if uniq0 == w.stat.uniq {
          return true, Found(fd0, 0, w.stat.uniq, w.stat.dir);
        }
      } else if testDir {
        if w.stat.Fails? {
          return false, of.(err := w.stat.err);
        }
        if w.stat.dir {
          return true, Found(INVALID, 0, w.stat.uniq, true);
        }
      }
      if w.open.NoFile? {
        return false, of.(err := w.open.err);
      }
      var fd := w.open.fd;
      air := {fd};
      if w.fstat.Fails? {
        air := {};
        return false, of;
      }
      if w.fstat.dir {
        air := {};
        return true, Found(INVALID, 0, w.fstat.uniq, true);
      }
      return true, Found(fd, 0, w.fstat.uniq, false);
    }

    /** The label `update`: the entry takes over what was found; with a file comes a caller. */
    method Update(f: nat, of: Found, now: int)
      requires f in files && f in b.held && files[f].count >= 0
      requires Proper(of) ==> Detached(f)
      requires Proper(of) && (of.err != 0 || of.dir) ==> files[f].fd == INVALID && files[f].count == 0
      requires Proper(of) ==> of.fd == INVALID || of.fd == files[f].fd || of.fd !in Open(b)
      modifies `files, `b, `air
      ensures air == old(air) - {of.fd} && files == Updated(old(files), f, of, now)
      ensures b == if Proper(of) then Taken(old(b), f, old(files)[f].fd, of) else old(b)
      ensures Proper(of) ==> Detached(f)
    {
      hide Core, Index;
      if Proper(of) {
        Updates(files, tree, queue, b, f, of, now);
        b := Taken(b, f, files[f].fd, of);
      }
      files := Updated(files, f, of, now);
      air := air - {of.fd};
    }

    /** The label `failed` with an entry: it leaves the cache, and is freed unless a caller uses it. */
    method Fail(f: nat)
      requires Detached(f) && air == {}
      modifies this
      ensures Valid() && air == {} && b.lost == old(b).lost && Remain(old(files), old(b), files, b)
      ensures FailedCloses(old(files)[f]) <= Open(old(b)) && Open(b) == Open(old(b)) - FailedCloses(old(files)[f])
      ensures old(files)[f].name !in tree
    {
      hide Core, Index, Remain;
      NoInvalid(files, b, f);
      if files[f].fd != INVALID {
        UsedByEntry(files, b, f);
      }
      Unindex(f);
      if files[f].count > 0 {
        MarkClose(f);
      }
      ghost var r, c := files, b;
      Drop(f);
      RemainSelf(old(files), old(b));
      RemainTrans(old(files), old(b), r, c, files, b);
    }

    method MarkClose(f: nat)
      requires Leaving(f)
      modifies `files
      ensures Leaving(f) && files == old(files)[f := old(files)[f].(close := true)] && Remain(old(files), b, files, b)
    {
      hide Core, Index, Remain;
      IndexKept(files, tree, queue, NOBODY, f, f, files[f].(close := true));
      NoInvalid(files, b, f);
      FieldKept(files, b, f, files[f].(close := true));
      RemainChanged(files, b, f, files[f].(close := true), b.owner);
      files := files[f := files[f].(close := true)];
    }

    /** The entry of a file that changed, still in use: it leaves the index and waits for its callers. */
    method Retire(f: nat)
      requires Detached(f) && files[f].count > 0
      modifies `files, `tree, `current
      ensures Valid() && Remain(old(files), b, files, b) && files.Keys == old(files).Keys
      ensures tree == old(tree) - {old(files)[f].name}
    {
      hide Core, Index, Remain;
      Unindex(f);
      MarkClose(f);
      Settled(files, tree, queue, f);
    }

    /** A new entry goes into the tree. Its fields are what the memory held, up to those set here. */
    method Insert(name: string, w: World)
      requires Valid() && |queue| < max && name !in tree && w.address !in files
      modifies this
      ensures Detached(w.address) && air == old(air) && Fresh(files, b, w.address)
      ensures files == old(files)[w.address := NewFile(name, w)] && b == old(b).(held := old(b).held[w.address := []])
      ensures tree == old(tree)[name := w.address]
    {
      hide Core, Index;
      Inserted(files, tree, queue, b, name, w);
      files := files[w.address := NewFile(name, w)];
      b := b.(held := b.held[w.address := []]);
      tree := tree[name := w.address];
      current := current + 1;
    }

    /** What was found is closed. */
    method CloseFound(of: Found)
      requires INVALID !in air
      modifies `air, `b
      ensures air == old(air) - {of.fd}
      ensures b == if of.fd in old(b).owner then old(b).(owner := old(b).owner - {of.fd}) else old(b)
    {
      if of.fd != INVALID {
        air := air - {of.fd};
      }
      b := if of.fd in b.owner then b.(owner := b.owner - {of.fd}) else b;
    }

    /** The label `create`: room is made and an entry put into the tree, for `update` to fill. */
    method Create(name: string, of: Found, w: World) returns (ok: bool)
      requires Valid() && max > 0 && name !in tree && w.address !in files
      requires if Proper(of) then of.fd !in Open(b) && air <= {of.fd} && INVALID !in air
               else air == {} && InUse(files, b, of.fd)
      modifies this
      ensures b.lost == old(b).lost && Open(b) <= Open(old(b))
      ensures ok == w.memory
      ensures !ok ==> air == {}
      ensures !ok ==> if Proper(of) then Valid() && Remain(old(files), old(b), files, b) else NoBooks(files, b)
      ensures ok ==> Detached(w.address) && air == old(air) && Fresh(files, b, w.address)
      ensures ok ==> files[w.address] == NewFile(name, w) && name in tree && tree[name] == w.address
      ensures ok ==> RemainBut(old(files), old(b), files, b, w.address)
      ensures !ok ==> name !in tree
    {
      hide Core, Index, Remain, RemainBut, Proper;
      RemainSelf(files, b);
      if current >= max {
        Expire(0, w.now);
      }
      RemainOpen(old(files), old(b), files, b, w.address);
      if !w.memory {
        if !Proper(of) {
          StillInUse(old(files), old(b), files, b, of.fd);
          ClosedInUse(files, b, of.fd);
        }
        CloseFound(of);
        return false;
      }
      ghost var r, c := files, b;
      Insert(name, w);
      RemainNew(r, c, w.address, files[w.address]);
      RemainThen(old(files), old(b), r, c, files, b, w.address);
      ok := true;
    }

    /** The labels `update` and `found`. */
    method Finish(f: nat, of: Found, now: int)
      requires f in files && f in b.held && files[f].count >= 0
      requires Proper(of) ==> Detached(f)
      requires Proper(of) && (of.err != 0 || of.dir) ==> files[f].fd == INVALID && files[f].count == 0
      requires Proper(of) ==> of.fd == INVALID || of.fd == files[f].fd || of.fd !in Open(b)
      modifies `files, `b, `air, `queue
      ensures air == old(air) - {of.fd} && queue == [f] + old(queue)
      ensures files == Updated(old(files), f, of, now)[f := Updated(old(files), f, of, now)[f].(accessed := now)]
      ensures b == if Proper(of) then Taken(old(b), f, old(files)[f].fd, of) else old(b)
      ensures Proper(of) ==> Valid() && RemainBut(old(files), old(b), files, b, f)
    {
      hide Core, Index, RemainBut;
      if Proper(of) {
        RemainUpdated(files, b, f, of, now);
      }
      Update(f, of, now);
      ToFront(f, now);
    }

    /** The label `found`. */
    method ToFront(f: nat, now: int)
      requires f in files
      modifies `files, `queue
      ensures files == old(files)[f := old(files)[f].(accessed := now)] && queue == [f] + old(queue)
      ensures old(Detached(f)) ==> Valid()
    {
      hide Core, Index;
      if Detached(f) {
        IndexKept(files, tree, queue, f, NOBODY, f, files[f].(accessed := now));
        Touches(files, b, f, now);
        Enqueued(files[f := files[f].(accessed := now)], tree, queue, f);
      }
      files := files[f := files[f].(accessed := now)];
      queue := [f] + queue;
    }

    /** One more caller of an entry that is current. */
    method Share(f: nat)
      requires Detached(f) && files[f].err == 0 && !files[f].isDir && files[f].fd != INVALID && f in b.held
      modifies `files, `b
      ensures Detached(f) && files == old(files)[f := old(files)[f].(count := old(files)[f].count + 1)]
      ensures b == old(b).(held := old(b).held[f := old(b).held[f] + [files[f].fd]])
    {
      hide Index;
      Shares(files, b, f);
      IndexKept(files, tree, queue, f, NOBODY, f, files[f].(count := files[f].count + 1));
      files := files[f := files[f].(count := files[f].count + 1)];
      b := b.(held := b.held[f := b.held[f] + [files[f].fd]]);
    }

    /** The entry that answers is in the index under the name and first in the queue, and holds what was found. */
    ghost predicate Answered(name: string, of: Found, e: int, now: int)
      reads this
    {
      e >= 0 ==>
        && e in files && files[e].name == name && name in tree && tree[name] == e && queue != [] && queue[0] == e
        && files[e].err == of.err && files[e].accessed == now && files[e].uses >= 1
        && (of.err == 0 ==> files[e].uniq == of.uniq && files[e].isDir == of.dir && !files[e].close)
    }

    /** What the caller of a call that opened the entry e, or none, is left with. */
    ghost predicate Outcome(ok: bool, of: Found, e: int, held: map<nat, seq<int>>)
      reads this
    {
      (ok <==> of.err == 0 && e >= 0)
      && (e >= 0 ==>
           && e in files && e in b.held && (of.fd == INVALID <==> of.err != 0 || of.dir)
           && b.held[e] == (if e in held then held[e] else []) + (if of.fd == INVALID then [] else [of.fd])
           && (of.fd != INVALID ==> files[e].fd == of.fd && of.fd in b.owner))
    }

    /** The name is not in the cache, or its entry was just retired. */
    method OpenNew(name: string, of: Found, w: World) returns (ok: bool, ghost e: int)
      requires Valid() && max > 0 && name !in tree && w.address !in files
      requires if Proper(of) then of.fd !in Open(b) && air == (if of.fd == INVALID then {} else {of.fd})
               else air == {} && InUse(files, b, of.fd) && of.err == 0
      modifies this
      ensures air == {} && b.lost == old(b).lost
      ensures if Proper(of) then Valid() && RemainBut(old(files), old(b), files, b, e) else NoBooks(files, b)
      ensures Proper(of) && ok ==> Outcome(of.err == 0, of, e, old(b).held)
      ensures !ok ==> e == NOBODY
      ensures Answered(name, of, e, w.now) && ok == w.memory && (if ok then e == w.address else e == NOBODY)
      ensures ok ==> e in files && files[e].created == w.now
      ensures if e >= 0 then files[e].uses == 1 else name !in tree
    {
      hide Core, Index, RemainBut;
      SameKeys(files, b);
      NotOpen(files, b);
      ok := Create(name, of, w);
      if !ok {
        e := NOBODY;
        return;
      }
      e := w.address;
      ghost var r, c := files, b;
      Finish(w.address, of, w.now);
      if Proper(of) {
        RemainAgain(old(files), old(b), r, c, files, b, e);
      } else {
        BadEntry(files, b, w.address);
      }
    }

    /** The entry is used once more and leaves the queue for the time of the call. */
    method Use(f: nat)
      requires Valid() && f in files && files[f].name in tree && tree[files[f].name] == f
      modifies `files, `queue
      ensures Detached(f) && files == old(files)[f := old(files)[f].(uses := old(files)[f].uses + 1)]
      ensures Remain(old(files), b, files, b)
    {
      hide Core, Index, Remain;
      InQueue(files, tree, queue, f);
      NoInvalid(files, b, f);
      RemainChanged(files, b, f, files[f].(uses := files[f].uses + 1), b.owner);
      IndexKept(files, tree, queue, NOBODY, NOBODY, f, files[f].(uses := files[f].uses + 1));
      FieldKept(files, b, f, files[f].(uses := files[f].uses + 1));
      files := files[f := files[f].(uses := files[f].uses + 1)];
      Dequeue(f);
    }

    method CloseDetached(f: nat)
      requires Detached(f) && files[f].fd != INVALID && files[f].count == 0
      modifies `files, `b
      ensures Detached(f) && files == old(files)[f := old(files)[f].(fd := INVALID)]
      ensures Remain(old(files), old(b), files, b)
      ensures b == old(b).(owner := old(b).owner - {old(files)[f].fd})
    {
      hide Core, Index, Remain;
      RemainChanged(files, b, f, files[f].(fd := INVALID), b.owner - {files[f].fd});
      IndexKept(files, tree, queue, f, NOBODY, f, files[f].(fd := INVALID));
      Close(f);
    }

    /** What was looked up again is what the entry of a file holds no more; or, with a twin, the descriptor
        it holds is taken for that of a directory. */
    method Replace(f: nat, name: string, of: Found, w: World) returns (ok: bool, ghost e: int)
      requires Detached(f) && max > 0 && w.address !in files
      requires files[f].name == name && files[f].fd != INVALID && files[f].err == 0
      requires files[f].uses >= 1
      requires if Proper(of) then of.fd !in Open(b) && air == (if of.fd == INVALID then {} else {of.fd})
               else air == {} && of == Found(files[f].fd, 0, files[f].uniq, true)
      modifies this
      ensures air == {} && b.lost == old(b).lost
      ensures if Proper(of) then Valid() && RemainBut(old(files), old(b), files, b, e) else NoBooks(files, b)
      ensures Proper(of) && ok ==> Outcome(of.err == 0, of, e, old(b).held)
      ensures (if ok then e >= 0 else e == NOBODY) && ok == (old(files)[f].count == 0 || w.memory)
      ensures Answered(name, of, e, w.now) && (ok ==> e in files && files[e].created == w.now)
      ensures !Proper(of) && old(files)[f].count == 0 ==> Stale(f, old(files)[f].fd) && files.Keys == old(files).Keys
      ensures if e < 0 then name !in tree
              else
                e in files
                && if e == w.address then files[e].uses == 1 else e == f && files[e].uses == old(files)[f].uses
    {
      hide Core, Index, Remain, RemainBut, InUse, NoBooks;
      NoInvalid(files, b, f);
      SameKeys(files, b);
      UsedByEntry(files, b, f);
      InTreeStill(files, tree, queue, f);
      ghost var r, c := files, b;
      if files[f].count == 0 {
        CloseDetached(f);
        ghost var r', c' := files, b;
        Finish(f, of, w.now);
        e := f;
        ok := true;
        if Proper(of) {
          RemainThen(r, c, r', c', files, b, e);
        } else {
          BadEntry(files, b, f);
        }
      } else {
        Retire(f);
        if !Proper(of) {
          StillInUse(r, c, files, b, of.fd);
        }
        ghost var r', c' := files, b;
        ok, e := OpenNew(name, of, w);
        if Proper(of) {
          RemainThen(r, c, r', c', files, b, e);
        }
      }
    }

    /** The entry has no caller and names a descriptor that is closed; the next failing look at its name ends
        in `failed`, which closes that number again. */
    ghost predicate Stale(f: nat, d: int)
      reads this
    {
      f in files && files[f].count == 0 && files[f].fd == d && d != INVALID && d !in Open(b) && files[f].isDir
      && f in queue && files[f].name in tree && tree[files[f].name] == f
    }

    method ShareAgain(f: nat, of: Found, now: int)
      requires Detached(f) && f in b.held && of.err == files[f].err && of.uniq == files[f].uniq && files[f].uses >= 1
      requires of.fd == (if of.err == 0 then files[f].fd else INVALID) && of.dir == (of.err == 0 && files[f].isDir)
      requires of.err == 0 && !of.dir ==> of.fd != INVALID
      modifies `files, `queue, `b
      ensures Valid() && b.lost == old(b).lost && RemainBut(old(files), old(b), files, b, f)
      ensures Outcome(of.err == 0, of, f, old(b).held) && Answered(old(files)[f].name, of, f, now)
      ensures f in files && files[f].created == old(files)[f].created
      ensures files[f].uses == old(files)[f].uses
    {
      hide Core, Index, RemainBut, Outcome;
      NoInvalid(files, b, f);
      InTreeStill(files, tree, queue, f);
      RemainShared(files, b, f, of, now);
      ghost var held := b.held;
      if files[f].err == 0 && !files[f].isDir {
        Share(f);
      }
      ToFront(f, now);
      SharedOutcome(of, f, held);
    }

    lemma SharedOutcome(of: Found, f: nat, held: map<nat, seq<int>>)
      requires f in files && f in b.held && f in held && Core(files, b) && of.err == files[f].err
      requires of.fd == (if of.err == 0 then files[f].fd else INVALID) && of.dir == (of.err == 0 && files[f].isDir)
      requires of.err == 0 && !of.dir ==> of.fd != INVALID
      requires b.held[f] == held[f] + if of.err == 0 && !of.dir then [of.fd] else []
      ensures Outcome(of.err == 0, of, f, held)
    {
      assert FileOK(f, files[f], b);
    }

    lemma Nobody(name: string, of: Found, held: map<nat, seq<int>>, now: int)
      ensures Outcome(false, of, NOBODY, held) && Answered(name, of, NOBODY, now)
    {
    }

    /** `update` for an entry looked at again. */
    method Refresh(f: nat, of: Found, now: int)
      requires Detached(f) && f in b.held && Proper(of) && files[f].uses >= 1
      requires of.err != 0 || of.dir ==> files[f].fd == INVALID && files[f].count == 0
      requires of.fd == INVALID || of.fd == files[f].fd || of.fd !in Open(b)
      modifies `files, `b, `air, `queue
      ensures Valid() && air == old(air) - {of.fd} && b == Taken(old(b), f, old(files)[f].fd, of)
      ensures RemainBut(old(files), old(b), files, b, f)
      ensures Outcome(of.err == 0, of, f, old(b).held) && Answered(old(files)[f].name, of, f, now)
      ensures f in files && files[f].created == now
      ensures files[f].uses == old(files)[f].uses
    {
      hide Core, Index, RemainBut;
      InTreeStill(files, tree, queue, f);
      NoInvalid(files, b, f);
      Finish(f, of, now);
    }

    /** The entry is there but cannot be used as it is. */
    method Retest(f: nat, q: Request, w: World) returns (ok: bool, of: Found, ghost e: int)
      requires Detached(f) && max > 0 && air == {} && w.address !in files && files[f].uses >= 1
      requires !(Holds(files[f]) && Current(files[f], q, w.now))
      requires w.open.Fd? ==> w.open.fd != INVALID && w.open.fd !in Open(b)
      modifies this
      ensures air == {} && if Twin(w, old(files)[f].fd, old(files)[f].uniq) then NoBooks(files, b) else Valid()
      ensures !Twin(w, old(files)[f].fd, old(files)[f].uniq) ==>
        var file := old(files)[f];
        && RemainBut(old(files), old(b), files, b, e) && Outcome(ok, of, e, old(b).held)
        && b.lost == old(b).lost + if Swapped(w, file.fd, file.uniq) then {file.fd} else {}
      ensures Twin(w, old(files)[f].fd, old(files)[f].uniq) && old(files)[f].count == 0 ==> Stale(f, old(files)[f].fd)
      ensures Answered(old(files)[f].name, of, e, w.now) && (e >= 0 ==> e in files)
      ensures Told(Some(old(files)[f]), q, w, ok, of)
      ensures Remembered(Some(old(files)[f]), q, w, ok, of, e, if e >= 0 then files[e].created else 0)
      ensures if e < 0 then old(files)[f].name !in tree
              else
                e in files
                && if e == w.address then files[e].uses == 1 else e == f && files[e].uses == old(files)[f].uses
    {
      hide Core, Index, Remain, RemainBut, Swapped, NoBooks, Outcome, Answered, Stale, Told, Remembered, FromFile,
        FromStat, FromOpen;
      NoInvalid(files, b, f);
      SameKeys(files, b);
      NoSwap(w, files[f].uniq);
      InTreeStill(files, tree, queue, f);
      var file := files[f];
      var unused := file.fd == INVALID && file.err == 0 && !file.isDir;
      ok, of := OpenAndStat(w, file.fd, if unused then q.uniq else file.uniq, q.testDir || file.isDir);
      NoSwap(w, q.uniq);
      if !ok && (of.err == 0 || !q.errors) {
        TellsFailure(file, q, w, of);
        Fail(f);
        RemainNobody(old(files), old(b), files, b);
        Nobody(file.name, of, old(b).held, w.now);
        ok, e := false, NOBODY;
        return;
      }
      if unused || file.isDir || file.err != 0 || (of.err == 0 && !of.dir && of.uniq == file.uniq) {
        TellsRefresh(file, q, w, ok, of, f);
        Refresh(f, of, w.now);
        ok, e := of.err == 0, f;
        return;
      }
      ghost var looked := ok;
      ok, e := Replace(f, file.name, of, w);
      TellsReplace(file, q, w, looked, of, e, if e >= 0 then files[e].created else 0);
      Nobody(file.name, of, old(b).held, w.now);
      ok := ok && of.err == 0;
    }

    /** The entry of the name is in the cache. */
    method OpenListed(f: nat, q: Request, w: World) returns (ok: bool, of: Found, ghost e: int)
      requires Valid() && max > 0 && air == {} && w.address !in files
      requires f in files && files[f].name in tree && tree[files[f].name] == f
      requires w.open.Fd? ==> w.open.fd != INVALID && w.open.fd !in Open(b)
      modifies this
      ensures air == {}
      ensures var file := old(files)[f];
        if Twin(w, file.fd, file.uniq) && !Current(file, q, w.now) then
          NoBooks(files, b) && (file.count == 0 ==> Stale(f, file.fd))
        else
          && Valid() && RemainBut(old(files), old(b), files, b, e) && Outcome(ok, of, e, old(b).held)
          && b.lost == old(b).lost +
               if Swapped(w, file.fd, file.uniq) && !Current(file, q, w.now) then {file.fd} else {}
      ensures Answered(old(files)[f].name, of, e, w.now) && (e >= 0 ==> e in files)
      ensures Told(Some(old(files)[f]), q, w, ok, of)
      ensures Remembered(Some(old(files)[f]), q, w, ok, of, e, if e >= 0 then files[e].created else 0)
      ensures if e < 0 then old(files)[f].name !in tree
              else
                e in files
                && if e == w.address then files[e].uses == 1 else e == f && files[e].uses == old(files)[f].uses + 1
    {
      hide Core, Index, Remain, RemainBut, Swapped, NoBooks;
      NoInvalid(files, b, f);
      SameKeys(files, b);
      Use(f);
      NoSwap(w, files[f].uniq);
      ghost var r, c := files, b;
      var file := files[f];
      if (file.fd != INVALID || file.err != 0 || file.isDir) && Current(file, q, w.now) {
        of := Found(if file.err == 0 then file.fd else INVALID, file.err, file.uniq, file.err == 0 && file.isDir);
        ShareAgain(f, of, w.now);
        ok, e := of.err == 0, f;
      } else {
        ok, of, e := Retest(f, q, w);
      }
      if !Twin(w, file.fd, file.uniq) || Current(file, q, w.now) {
        RemainThen(old(files), old(b), r, c, files, b, e);
      }
    }

    /** ngx_open_cached_file. The entry that answers is e; on an error without one, e is NOBODY and nothing
        that was opened is left open. The cache stays as it should be unless the name leads to a twin. */
    method OpenCached(name: string, q: Request, w: World) returns (ok: bool, of: Found, ghost e: int)
      requires Valid() && max > 0 && air == {} && w.address !in files
      requires w.open.Fd? ==> w.open.fd != INVALID && w.open.fd !in Open(b)
      modifies this
      ensures air == {} && old(NameIs(files, tree, name))
      ensures Valid() <==> !Twinned(old(files), old(tree), name, q, w)
      ensures Twinned(old(files), old(tree), name, q, w) ==> NoBooks(files, b)
      ensures Twinned(old(files), old(tree), name, q, w) && old(files)[old(tree)[name]].count == 0 ==>
        Stale(old(tree)[name], old(files)[old(tree)[name]].fd)
      ensures Valid() ==>
        && RemainBut(old(files), old(b), files, b, e) && Outcome(ok, of, e, old(b).held)
        && b.lost == old(b).lost + Lost(old(files), old(tree), name, q, w)
      ensures Valid() && Stable(w) ==> b.lost == old(b).lost
      ensures Answered(name, of, e, w.now) && (!old(name in tree) && e >= 0 ==> e == w.address)
      ensures Told(old(Entry(files, tree, name)), q, w, ok, of) && (e >= 0 ==> e in files)
      ensures Remembered(old(Entry(files, tree, name)), q, w, ok, of, e, if e >= 0 then files[e].created else 0)
      ensures if e < 0 then name !in tree
              else
                && e in files
                && (e == w.address ==> files[e].uses == 1)
                && (e != w.address ==>
                  old(name in tree) && e == old(tree)[name] && files[e].uses == old(files)[e].uses + 1)
    {
      hide Core, Index, Remain, RemainBut;
      if name in tree {
        ByName(files, tree, queue, name);
      }
      SameKeys(files, b);
      if Stable(w) {
        StableKeeps(files, tree, name, q, w);
      }
      if name in tree {
        hide Swapped;
        ok, of, e := OpenListed(tree[name], q, w);
        return;
      }
      NotOpen(files, b);
      ok, of := OpenAndStat(w, INVALID, q.uniq, q.testDir);
      if !ok && (of.err == 0 || !q.errors) {
        RemainSelf(files, b);
        RemainNobody(files, b, files, b);
        ok, e := false, NOBODY;
        return;
      }
      ok, e := OpenNew(name, of, w);
      ok := ok && of.err == 0;
    }

    /** The last entry goes, whether callers use it or not; they lose what they were given. */
    method DestroyLast(now: int)
      requires Valid() && queue != []
      modifies this
      ensures Valid() && b.lost == old(b).lost && queue == old(queue)[..|old(queue)| - 1]
      ensures files == old(files) - {old(queue)[|old(queue)| - 1]}
    {
      hide Core, Index, Remain;
      var f := queue[|queue| - 1];
      ListedIs(files, tree, queue, f);
      LastOut(queue);
      Dequeue(f);
      Unindex(f);
      NoInvalid(files, b, f);
      if files[f].err == 0 && !files[f].isDir {
        IndexKept(files, tree, queue, NOBODY, f, f, files[f].(close := true, count := 0));
        Forfeits(files, b, f);
        files := files[f := files[f].(close := true, count := 0)];
        b := b.(held := b.held[f := []]);
        CloseCached(f, 0, now);
      } else {
        Drop(f);
      }
      assert files == old(files) - {f};
    }

    /** ngx_open_file_cache_cleanup: no entry is left but those that had left the index and wait for their
        callers. Once all callers are done, nothing is left, and only descriptors lost before are still open. */
    method Destroy(now: int)
      requires Valid()
      modifies this
      ensures Valid() && tree == map[] && queue == [] && current == 0 && b.lost == old(b).lost
      ensures forall f :: f in files <==> f in old(files) && f !in old(queue)
      ensures forall f {:trigger files[f]} | f in files ::
        files[f] == old(files)[f] && files[f].close && files[f].count > 0
      ensures Open(b) == b.lost + set f | f in files :: files[f].fd
      ensures (forall f {:trigger old(files)[f]} | f in old(files) :: old(files)[f].count == 0) ==>
        files == map[] && Open(b) == b.lost
    {
      hide Core, Index, Remain;
      while queue != []
        invariant Valid() && b.lost == old(b).lost && queue <= old(queue)
        invariant forall f :: f in files <==> f in old(files) && (f in old(queue) ==> f in queue)
        invariant forall f {:trigger files[f]} | f in files :: files[f] == old(files)[f]
      {
        ghost var r, q := files, queue;
        QueueDistinct(files, tree, queue);
        DestroyLast(now);
        OneOut(q, queue);
      }
      OnlyRetired(files, tree, queue, b);
    }
  }

  lemma OneOut(q: seq<nat>, q': seq<nat>)
    requires Distinct(q) && q != [] && q' == q[..|q| - 1]
    ensures forall f :: f in q' <==> f in q && f != q[|q| - 1]
  {
    assert q == q' + [q[|q| - 1]];
  }

  lemma Forfeits(files: Files, b: Books, f: nat)
    requires Core(files, b) && f in files
    ensures Core(files[f := files[f].(close := true, count := 0)], b.(held := b.held[f := []]))
  {
    var r, c := files[f := files[f].(close := true, count := 0)], b.(held := b.held[f := []]);
    forall g | g in r
      ensures FileOK(g, r[g], c) && HeldOK(g, r[g], c)
    {
      assert FileOK(g, files[g], b) && HeldOK(g, files[g], b);
    }
  }

  lemma OnlyRetired(files: Files, tree: map<string, nat>, queue: seq<nat>, b: Books)
    requires Core(files, b) && Index(files, tree, queue, NOBODY, NOBODY) && queue == []
    ensures tree == map[] && Open(b) == b.lost + set f | f in files :: files[f].fd
    ensures forall f {:trigger files[f]} | f in files :: files[f].close && files[f].count > 0
  {
    assert tree.Keys == {};
    var fds := set f | f in files :: files[f].fd;
    forall d: int
      ensures d in b.owner <==> d in fds
    {
      if d in b.owner {
        assert files[b.owner[d]].fd == d;
      }
      if f :| f in files && files[f].fd == d {
        assert FileOK(f, files[f], b);
      }
    }
  }

  /** A run in which the name of a file turns into a directory with the same number. The entry keeps the number
      of a descriptor that is closed, and `failed` would close it again. */
  method ClosedTwice() returns (cache: Cache)
    ensures cache.Stale(100, 5) && !(FailedCloses(cache.files[100]) <= Open(cache.b))
  {
    hide Core, Index, Remain, RemainBut;
    cache := new Cache(1, 60);
    var q, r := Request(0, 0, 1, false, false), Request(9, 0, 1, false, false);
    var ok, of;
    ghost var o, files, b := NOBODY, cache.files, cache.b;
    SameKeys(files, b);
    ok, of, o := cache.OpenCached("a", q, World(Fails(2), Fd(5), Is(7, false), true, 100, false, false, 1000));
    KeysWithin(files, b, cache.files, cache.b, 100);
    OneHeld(cache.files, cache.b, 100);
    files, b := cache.files[100 := cache.files[100].(count := cache.files[100].count - 1)], Released(cache.b, 100, 0);
    cache.Cleanup(100, 0, 1, 1000);
    KeysRemain(files, b, cache.files, cache.b);
    QueuedInTree(cache.files, cache.tree, cache.queue, 100);
    ok, of, o := cache.OpenCached("a", r, World(Is(7, true), NoFile(2), Fails(2), true, 200, false, false, 1000));
  }

  lemma KeysWithin(files: Files, b: Books, files': Files, b': Books, e: int)
    requires RemainBut(files, b, files', b', e)
    ensures forall f | f in files' :: f in files || f == e
  {
  }

  lemma KeysRemain(files: Files, b: Books, files': Files, b': Books)
    requires Remain(files, b, files', b')
    ensures forall f | f in files' :: f in files
  {
  }

  lemma OneHeld(files: Files, b: Books, f: nat)
    requires Core(files, b) && f in files
    ensures f in b.held && files[f].count == |b.held[f]|
  {
    assert FileOK(f, files[f], b);
  }

  lemma QueuedInTree(files: Files, tree: map<string, nat>, queue: seq<nat>, f: nat)
    requires Index(files, tree, queue, NOBODY, NOBODY) && f in queue
    ensures f in files && files[f].name in tree && tree[files[f].name] == f
  {
  }

  /** What `failed` closes of an entry. */
  function FailedCloses(file: File): set<int> {
    if file.count == 0 && file.fd != INVALID then {file.fd} else {}
  }

  predicate NameIs(files: Files, tree: map<string, nat>, name: string) {
    name in tree ==> tree[name] in files
  }

  /** The entry of the name is looked at again and its name leads to a twin. */
  predicate Twinned(files: Files, tree: map<string, nat>, name: string, q: Request, w: World)
    requires NameIs(files, tree, name)
  {
    name in tree && Twin(w, files[tree[name]].fd, files[tree[name]].uniq) && !Current(files[tree[name]], q, w.now)
  }

  /** No account of the descriptors that are open fits the entries. */
  ghost predicate NoBooks(files: Files, b: Books) {
    forall c: Books :: Open(c) == Open(b) ==> !Core(files, c)
  }

  /** A caller uses the descriptor. */
  predicate InUse(files: Files, b: Books, d: int) {
    d in b.owner && b.owner[d] in files && files[b.owner[d]].count > 0
  }

  lemma UsedByEntry(files: Files, b: Books, f: nat)
    requires Core(files, b) && f in files && files[f].fd != INVALID
    ensures files[f].fd in b.owner && b.owner[files[f].fd] == f && files[f].fd !in b.lost
    ensures files[f].count > 0 ==> InUse(files, b, files[f].fd)
  {
    assert FileOK(f, files[f], b);
  }

  lemma StillInUse(files: Files, b: Books, files': Files, b': Books, d: int)
    requires Core(files, b) && Core(files', b') && Remain(files, b, files', b') && InUse(files, b, d)
    ensures InUse(files', b', d)
  {
    var f := b.owner[d];
    assert files[f].fd == d;
    assert f in files' && files'[f].fd == d;
    assert FileOK(f, files'[f], b');
    assert FileOK(f, files[f], b);
  }

  lemma ClosedInUse(files: Files, b: Books, d: int)
    requires Core(files, b) && InUse(files, b, d)
    ensures NoBooks(files, b.(owner := b.owner - {d}))
  {
    var f, b' := b.owner[d], b.(owner := b.owner - {d});
    assert files[f].fd == d && d != INVALID && d !in Open(b');
    forall c: Books | Open(c) == Open(b')
      ensures !Core(files, c)
    {
      NotCore(files, c, f);
    }
  }

  lemma BadEntry(files: Files, b: Books, f: nat)
    requires f in files && files[f].isDir && files[f].fd != INVALID
    ensures NoBooks(files, b)
  {
    forall c: Books
      ensures !Core(files, c)
    {
      NotCore(files, c, f);
    }
  }

  lemma NotCore(files: Files, b: Books, f: nat)
    requires f in files && !FileOK(f, files[f], b)
    ensures !Core(files, b)
  {
  }

  lemma InTreeStill(files: Files, tree: map<string, nat>, queue: seq<nat>, f: nat)
    requires Index(files, tree, queue, f, NOBODY)
    ensures f in files && files[f].name in tree && tree[files[f].name] == f
    ensures files[f].err == 0 ==> !files[f].close
  {
  }

  /** The descriptor that a call loses, when its file is away at the first look and back at the second. */
  function Lost(files: Files, tree: map<string, nat>, name: string, q: Request, w: World): set<int>
    requires NameIs(files, tree, name)
  {
    if name in tree && Swapped(w, files[tree[name]].fd, files[tree[name]].uniq) && !Current(files[tree[name]], q, w.now)
    then {files[tree[name]].fd} else {}
  }

  lemma StableKeeps(files: Files, tree: map<string, nat>, name: string, q: Request, w: World)
    requires (name in tree ==> tree[name] in files) && Stable(w)
    ensures Lost(files, tree, name, q, w) == {}
  {
  }

  lemma ByName(files: Files, tree: map<string, nat>, queue: seq<nat>, name: string)
    requires Index(files, tree, queue, NOBODY, NOBODY) && name in tree
    ensures tree[name] in files && files[tree[name]].name == name
  {
  }

  lemma NotOpen(files: Files, b: Books)
    requires Core(files, b)
    ensures INVALID !in Open(b)
  {
  }

  /** What a caller was given stays open as long as it has not cleaned up. */
  lemma HeldIsOpen(files: Files, b: Books, f: nat, i: nat)
    requires Core(files, b) && f in files && f in b.held && i < |b.held[f]|
    ensures b.held[f][i] in Open(b)
  {
    assert FileOK(f, files[f], b) && HeldOK(f, files[f], b);
  }

  /** Two entries never share a descriptor. */
  lemma OneOwner(files: Files, b: Books, f: nat, g: nat)
    requires Core(files, b) && f in files && g in files && files[f].fd != INVALID && files[f].fd == files[g].fd
    ensures f == g
  {
    assert FileOK(f, files[f], b) && FileOK(g, files[g], b);
  }

  lemma RemainNobody(files: Files, b: Books, files': Files, b': Books)
    requires Remain(files, b, files', b')
    ensures RemainBut(files, b, files', b', NOBODY)
  {
  }

  lemma NoSwap(w: World, uniq: int)
    ensures !Swapped(w, INVALID, uniq)
  {
  }

  lemma InQueue(files: Files, tree: map<string, nat>, queue: seq<nat>, f: nat)
    requires Index(files, tree, queue, NOBODY, NOBODY) && f in files
    requires files[f].name in tree && tree[files[f].name] == f
    ensures f in queue
  {
  }

  lemma RemainShared(files: Files, b: Books, f: nat, of: Found, now: int)
    requires Core(files, b) && f in files && f in b.held
    ensures RemainBut(files, b, files[f := files[f].(accessed := now)], b, f)
    ensures var r := files[f := files[f].(count := files[f].count + 1)];
      RemainBut(files, b, r[f := r[f].(accessed := now)], b.(held := b.held[f := b.held[f] + [files[f].fd]]), f)
  {
  }

  lemma SameKeys(files: Files, b: Books)
    requires Core(files, b)
    ensures b.held.Keys == files.Keys
  {
  }

  lemma Shares(files: Files, b: Books, f: nat)
    requires Core(files, b) && f in files && f in b.held && files[f].err == 0
    requires !files[f].isDir && files[f].fd != INVALID
    ensures Core(files[f := files[f].(count := files[f].count + 1)], b.(held := b.held[f := b.held[f] + [files[f].fd]]))
  {
    var r, c := files[f := files[f].(count := files[f].count + 1)], b.(held := b.held[f := b.held[f] + [files[f].fd]]);
    forall g | g in r
      ensures FileOK(g, r[g], c) && HeldOK(g, r[g], c)
    {
      assert FileOK(g, files[g], b) && HeldOK(g, files[g], b);
    }
  }

  lemma RemainAgain(files: Files, b: Books, files': Files, b': Books, files'': Files, b'': Books, e: int)
    requires RemainBut(files, b, files', b', e) && RemainBut(files', b', files'', b'', e)
    ensures RemainBut(files, b, files'', b'', e)
  {
  }

  lemma RemainUpdated(files: Files, b: Books, f: nat, of: Found, now: int)
    requires Core(files, b) && f in files && f in b.held
    ensures var r := Updated(files, f, of, now);
      RemainBut(files, b, r[f := r[f].(accessed := now)], Taken(b, f, files[f].fd, of), f)
  {
  }

  predicate Fresh(files: Files, b: Books, f: nat) {
    f in files && f in b.held && files[f].fd == INVALID && files[f].count == 0 && b.held[f] == []
  }

  /** `err`, `fd` and the times are set before they are looked at. */
  function NewFile(name: string, w: World): File {
    File(name, INVALID, 1, 0, 1, 0, w.junkClose, w.junkDir, 0, 0)
  }

  lemma Inserted(files: Files, tree: map<string, nat>, queue: seq<nat>, b: Books, name: string, w: World)
    requires Core(files, b) && Index(files, tree, queue, NOBODY, NOBODY) && name !in tree && w.address !in files
    ensures Core(files[w.address := NewFile(name, w)], b.(held := b.held[w.address := []]))
    ensures Index(files[w.address := NewFile(name, w)], tree[name := w.address], queue, w.address, NOBODY)
  {
    hide Core, Index;
    InsertedCore(files, b, w.address, NewFile(name, w));
    InsertedIndex(files, tree, queue, w.address, NewFile(name, w));
  }

  lemma InsertedCore(files: Files, b: Books, f: nat, file: File)
    requires Core(files, b) && f !in files && file.fd == INVALID && file.count == 0
    ensures Core(files[f := file], b.(held := b.held[f := []]))
  {
    var r, c := files[f := file], b.(held := b.held[f := []]);
    forall g | g in r
      ensures FileOK(g, r[g], c) && HeldOK(g, r[g], c)
    {
      if g != f {
        assert FileOK(g, files[g], b) && HeldOK(g, files[g], b);
      }
    }
  }

  lemma InsertedIndex(files: Files, tree: map<string, nat>, queue: seq<nat>, f: nat, file: File)
    requires Index(files, tree, queue, NOBODY, NOBODY) && f !in files && file.name !in tree && file.err != 0
    ensures Index(files[f := file], tree[file.name := f], queue, f, NOBODY)
  {
  }

  lemma RemainOpen(files: Files, b: Books, files': Files, b': Books, address: nat)
    requires Remain(files, b, files', b') && address !in files
    ensures Open(b') <= Open(b) && address !in files'
  {
  }

  lemma RemainNew(files: Files, b: Books, f: nat, file: File)
    requires Core(files, b) && f !in files
    ensures RemainBut(files, b, files[f := file], b.(held := b.held[f := []]), f)
  {
  }

  /** The parts of ngx_open_file_info_t that come back. */
  datatype Found = Found(fd: int, err: nat, uniq: int, dir: bool)

  function Updated(files: Files, f: nat, of: Found, now: int): Files
    requires f in files
  {
    var file := files[f].(fd := of.fd, err := of.err, created := now);
    files[f := if of.err != 0 then file
               else file.(uniq := of.uniq, close := false, isDir := of.dir,
                          count := file.count + if of.dir then 0 else 1)]
  }

  /** The entry owns the new descriptor; one it had before and does not have any more is lost. */
  function Taken(b: Books, f: nat, was: int, of: Found): Books
    requires f in b.held
  {
    if of.fd == INVALID then b
    else
      b.(owner := (b.owner - {was})[of.fd := f], lost := b.lost + if was == INVALID || was == of.fd then {} else {was},
         held := b.held[f := b.held[f] + [of.fd]])
  }

  lemma Updates(files: Files, tree: map<string, nat>, queue: seq<nat>, b: Books, f: nat, of: Found, now: int)
    requires Core(files, b) && Index(files, tree, queue, f, NOBODY) && f in files && files[f].count >= 0
    requires of.fd == INVALID <==> of.err != 0 || of.dir
    requires of.err != 0 || of.dir ==> files[f].fd == INVALID && files[f].count == 0
    requires of.fd == INVALID || of.fd == files[f].fd || of.fd !in Open(b)
    ensures f in b.held && Core(Updated(files, f, of, now), Taken(b, f, files[f].fd, of))
    ensures Index(Updated(files, f, of, now), tree, queue, f, NOBODY)
  {
    hide Core, Index;
    UpdatesIndex(files, tree, queue, f, of, now);
    UpdatesCore(files, b, f, of, now);
  }

  lemma UpdatesFile(files: Files, b: Books, f: nat, of: Found, now: int, g: nat)
    requires Core(files, b) && f in files && files[f].count >= 0 && g in files
    requires of.fd == INVALID <==> of.err != 0 || of.dir
    requires of.err != 0 || of.dir ==> files[f].fd == INVALID && files[f].count == 0
    requires of.fd == INVALID || of.fd == files[f].fd || of.fd !in Open(b)
    ensures f in b.held
    ensures var r, c := Updated(files, f, of, now), Taken(b, f, files[f].fd, of);
      FileOK(g, r[g], c) && HeldOK(g, r[g], c)
  {
    assert FileOK(f, files[f], b) && HeldOK(f, files[f], b);
    assert FileOK(g, files[g], b) && HeldOK(g, files[g], b);
  }

  lemma UpdatesCore(files: Files, b: Books, f: nat, of: Found, now: int)
    requires Core(files, b) && f in files && files[f].count >= 0
    requires of.fd == INVALID <==> of.err != 0 || of.dir
    requires of.err != 0 || of.dir ==> files[f].fd == INVALID && files[f].count == 0
    requires of.fd == INVALID || of.fd == files[f].fd || of.fd !in Open(b)
    ensures f in b.held && Core(Updated(files, f, of, now), Taken(b, f, files[f].fd, of))
  {
    var r, c := Updated(files, f, of, now), Taken(b, f, files[f].fd, of);
    assert FileOK(f, files[f], b);
    hide FileOK, HeldOK;
    forall g | g in r
      ensures FileOK(g, r[g], c) && HeldOK(g, r[g], c)
    {
      UpdatesFile(files, b, f, of, now, g);
    }
  }

  lemma UpdatesIndex(files: Files, tree: map<string, nat>, queue: seq<nat>, f: nat, of: Found, now: int)
    requires Index(files, tree, queue, f, NOBODY) && f in files
    ensures Index(Updated(files, f, of, now), tree, queue, f, NOBODY)
  {
  }

  function Released(b: Books, f: nat, i: nat): Books
    requires f in b.held && i < |b.held[f]|
  {
    b.(held := b.held[f := b.held[f][..i] + b.held[f][i + 1..]])
  }

  lemma Releases(files: Files, b: Books, f: nat, i: nat)
    requires Core(files, b) && f in files && f in b.held && i < |b.held[f]|
    ensures Core(files[f := files[f].(count := files[f].count - 1)], Released(b, f, i))
  {
    var r, c := files[f := files[f].(count := files[f].count - 1)], Released(b, f, i);
    forall g | g in r
      ensures FileOK(g, r[g], c) && HeldOK(g, r[g], c)
    {
      assert FileOK(g, files[g], b) && HeldOK(g, files[g], b);
    }
  }

  /** An entry for a file is in the index unless it is marked; one caller less leaves either as it should be. */
  lemma ByClose(files: Files, tree: map<string, nat>, queue: seq<nat>, f: nat)
    requires Index(files, tree, queue, NOBODY, NOBODY) && f in files && files[f].err == 0
    ensures f in queue <==> !files[f].close
    ensures var r := files[f := files[f].(count := files[f].count - 1)];
      Index(r, tree, queue, NOBODY, if files[f].close then f else NOBODY)
  {
  }

  /** Entries but for e come and go only as far as no caller uses them; what callers were given is left alone. */
  ghost predicate RemainBut(files: Files, b: Books, files': Files, b': Books, e: int) {
    (forall f {:trigger files'[f]} | f in files' && f != e ::
      f in files && f in b.held && f in b'.held && b'.held[f] == b.held[f]
      && files'[f].count == files[f].count && files'[f].name == files[f].name)
    && (forall f {:trigger files[f]} | f in files && files[f].count > 0 && f != e ::
      f in files' && files'[f].fd == files[f].fd)
  }

  ghost predicate Remain(files: Files, b: Books, files': Files, b': Books) {
    RemainBut(files, b, files', b', NOBODY) && Open(b') <= Open(b)
  }

  lemma RemainSelf(files: Files, b: Books)
    requires Core(files, b)
    ensures Remain(files, b, files, b)
  {
  }

  /** What Drop does. */
  lemma RemainDropped(files: Files, b: Books, f: nat, owner: map<int, nat>)
    requires Core(files, b) && f in files && files[f].count == 0 && owner.Keys <= b.owner.Keys
    ensures Remain(files, b, files - {f}, b.(held := b.held - {f}, owner := owner))
  {
  }

  /** A change of fields other than the name, the count and a descriptor in use. */
  lemma RemainChanged(files: Files, b: Books, f: nat, file: File, owner: map<int, nat>)
    requires Core(files, b) && f in files && file.count == files[f].count && file.name == files[f].name
    requires (files[f].count > 0 ==> file.fd == files[f].fd) && owner.Keys <= b.owner.Keys
    ensures Remain(files, b, files[f := file], b.(owner := owner))
  {
  }

  lemma RemainTrans(files: Files, b: Books, files': Files, b': Books, files'': Files, b'': Books)
    requires Remain(files, b, files', b') && Remain(files', b', files'', b'')
    ensures Remain(files, b, files'', b'')
  {
  }

  lemma RemainThen(files: Files, b: Books, files': Files, b': Books, files'': Files, b'': Books, e: int)
    requires Remain(files, b, files', b') && RemainBut(files', b', files'', b'', e)
    ensures RemainBut(files, b, files'', b'', e)
  {
  }

  lemma LastOut(q: seq<nat>)
    requires Distinct(q) && q != []
    ensures Without(q, q[|q| - 1]) == q[..|q| - 1]
  {
    hide Without;
    var front, last := q[..|q| - 1], q[|q| - 1];
    assert last !in front;
    WithoutFront(front, last);
    WithoutAppend(front, last, last);
    hide Distinct;
    assert front + [last] == q;
  }

  lemma {:induction false} WithoutFront(q: seq<nat>, x: nat)
    requires x !in q
    ensures Without(q, x) == q
  {
    if q != [] {
      WithoutFront(q[1..], x);
    }
  }

  lemma {:induction false} WithoutAppend(q: seq<nat>, y: nat, x: nat)
    ensures Without(q + [y], x) == Without(q, x) + if x == y then [] else [y]
  {
    if q != [] {
      WithoutAppend(q[1..], y, x);
      assert (q + [y])[1..] == q[1..] + [y];
    }
  }

  lemma NoInvalid(files: Files, b: Books, f: nat)
    requires Core(files, b) && f in files
    ensures INVALID !in Open(b) && files[f].count >= 0 && FileOK(f, files[f], b)
  {
  }

  lemma ListedIs(files: Files, tree: map<string, nat>, queue: seq<nat>, f: nat)
    requires Index(files, tree, queue, NOBODY, NOBODY) && f in queue
    ensures f in files && InTree(files, tree, f) && Distinct(queue)
  {
  }

  lemma FieldKept(files: Files, b: Books, f: nat, file: File)
    requires Core(files, b) && f in files && file.fd == files[f].fd && file.count == files[f].count
    requires FileOK(f, file, b)
    ensures Core(files[f := file], b)
  {
  }
}
