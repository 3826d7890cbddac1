/** The thread pool: one event loop posts tasks and handles completions, any number of worker
    threads run them. A step is one access to shared data, or what is done under the spinlock of the
    done list; the pool's mutex is explicit, so steps inside its critical sections interleave with
    everything outside them. */
module ThreadPool {

  type Task = nat
  type Worker = nat

  datatype Ptr = Null | At(task: Task)

  /** What the `last` field of a list points to: its `first` field, or the `next` field of a task. */
  datatype Slot = First | NextOf(task: Task)

  /** Where a worker stands; the comment names the next thing it does. */
  datatype WorkerPc =
    | Lock                 // lock the mutex
    | Count                // holds the mutex: waiting--
    | Test                 // holds the mutex: is the first pointer null?
    | CondWait             // in cond_wait, the mutex released
    | Relock               // woken, must lock the mutex again to leave cond_wait
    | Take                 // holds the mutex: task = first, first = task->next
    | TakeLast(task: Task) // holds the mutex: when first is null now, last = &first
    | Unlock(task: Task)   // holds the mutex: release it
    | Run(task: Task)      // in the task's handler
    | Clear(task: Task)    // task->next = NULL
    | Finish(task: Task)   // append the task to the done list

  datatype MainPc =
    | Free                   // in the event loop
    | PostLock(task: Task)   // in task_post: lock the mutex
    | PostTest(task: Task)   // holds the mutex: is waiting >= max_queue?
    | PostSignal(task: Task) // holds the mutex, the task is active and its next null: signal the condition
    | PostLink(task: Task)   // holds the mutex: *last = task
    | PostLast(task: Task)   // holds the mutex: last = &task->next
    | PostCount              // holds the mutex: waiting++
    | PostUnlock             // holds the mutex: release it

  datatype Owner = Nobody | Main | OfWorker(worker: Worker)

  /** Where a task is; `Done` until its completion handler is called. */
  datatype Place = Idle | Posting | Queued | Running(worker: Worker) | Done

  datatype List = List(first: Ptr, last: Slot)

  /** What happened so far, which no step looks at: the tasks that are queued, on the done list and before the
      completion handler, in the order in which they came there, where each task is, the tasks linked and unlinked
      so far, and how often each task was run since it was last accepted. */
  datatype History = History(queue: seq<Task>, done: seq<Task>, batch: seq<Task>, place: map<Task, Place>,
                             posted: seq<Task>, taken: seq<Task>, runs: map<Task, nat>)

  /** The queue and the done list are linked by `next`; `walk` and `event` are the variables of the completion
      handler: the task it looks at next and the one it is about to complete. */
  datatype State = State(
    max: nat, mutex: Owner, waiting: int, active: set<Task>, next: map<Task, Ptr>, queue: List, done: List,
    walk: Ptr, event: Ptr, workers: map<Worker, WorkerPc>, main: MainPc, past: History)

  function PlaceOf(s: State, k: Task): Place {
    if k in s.past.place then s.past.place[k] else Idle
  }

  ghost predicate Init(s: State) {
    && s.mutex == Nobody && s.waiting == 0 && s.active == {}
    && s.queue == List(Null, First) && s.done == List(Null, First) && s.walk == Null && s.event == Null
    && (forall w :: w in s.workers ==> s.workers[w] == Lock) && s.main == Free
    && s.past == History([], [], [], map[], [], [], map[])
  }

  // What a step does to the lists and to the history.

  /** *last = k: the slot is the first field or the next field of a task. */
  function Linked(next: map<Task, Ptr>, l: List, k: Task): (map<Task, Ptr>, Ptr) {
    if l.last == First then (next, At(k)) else (next[l.last.task := At(k)], l.first)
  }

  function Rest(q: seq<Task>): seq<Task> {
    if q == [] then [] else q[1..]
  }

  function TakenBy(h: History, k: Task, w: Worker): History {
    h.(queue := Rest(h.queue), taken := h.taken + [k], place := h.place[k := Running(w)])
  }

  function Runs(h: History, k: Task): nat {
    if k in h.runs then h.runs[k] else 0
  }

  function Ran(h: History, k: Task): History {
    h.(runs := h.runs[k := Runs(h, k) + 1])
  }

  function Finished(h: History, k: Task): History {
    h.(done := h.done + [k], place := h.place[k := Done])
  }

  function Posted(h: History, k: Task): History {
    h.(queue := h.queue + [k], posted := h.posted + [k], place := h.place[k := Queued])
  }

  /** One step of worker `w`. Leaving cond_wait needs no signal. */
  ghost predicate WorkerStep(s: State, t: State, w: Worker)
    requires w in s.workers
  {
    match s.workers[w]
    case Lock => s.mutex == Nobody && t == s.(mutex := OfWorker(w), workers := s.workers[w := Count])
    case Count => t == s.(waiting := s.waiting - 1, workers := s.workers[w := Test])
    case Test =>
      if s.queue.first == Null then t == s.(mutex := Nobody, workers := s.workers[w := CondWait])
      else t == s.(workers := s.workers[w := Take])
    case CondWait => t == s.(workers := s.workers[w := Relock])
    case Relock => s.mutex == Nobody && t == s.(mutex := OfWorker(w), workers := s.workers[w := Test])
    case Take =>
      s.queue.first.At? && s.queue.first.task in s.next &&
      var k := s.queue.first.task;
      t == s.(queue := s.queue.(first := s.next[k]), workers := s.workers[w := TakeLast(k)],
              past := TakenBy(s.past, k, w))
    case TakeLast(k) =>
      t == s.(queue := if s.queue.first == Null then s.queue.(last := First) else s.queue,
              workers := s.workers[w := Unlock(k)])
    case Unlock(k) => t == s.(mutex := Nobody, workers := s.workers[w := Run(k)])
    case Run(k) => t == s.(workers := s.workers[w := Clear(k)], past := Ran(s.past, k))
    case Clear(k) => t == s.(next := s.next[k := Null], workers := s.workers[w := Finish(k)])
    case Finish(k) =>
      var (next, first) := Linked(s.next, s.done, k);
      t == s.(next := next, done := List(first, NextOf(k)), workers := s.workers[w := Lock],
              past := Finished(s.past, k))
  }

  /** In the event loop: post a task, take the done list over, read one task off it together with its next
      pointer, or complete the task read. Posting happens between completions as well. */
  ghost predicate FreeStep(s: State, t: State) {
    || (s.event == Null && exists k :: k !in s.active && t == s.(main := PostLock(k)))
    || (s.event == Null && s.walk == Null && t == TakenOver(s))
    || (s.event == Null && s.walk.At? && s.walk.task in s.next && t == Read(s))
    || (s.event.At? && t == Completed(s))
  }

  function TakenOver(s: State): State {
    s.(walk := s.done.first, done := List(Null, First), past := s.past.(batch := s.past.done, done := []))
  }

  function Read(s: State): State
    requires s.walk.At? && s.walk.task in s.next
  {
    s.(event := s.walk, walk := s.next[s.walk.task], past := s.past.(batch := Rest(s.past.batch)))
  }

  function Completed(s: State): State
    requires s.event.At?
  {
    s.(event := Null, active := s.active - {s.event.task}, past := s.past.(place := s.past.place[s.event.task := Idle]))
  }

  ghost predicate MainStep(s: State, t: State) {
    match s.main
    case Free => FreeStep(s, t)
    case PostLock(k) => s.mutex == Nobody && t == s.(mutex := Main, main := PostTest(k))
    case PostTest(k) =>
      if s.waiting >= s.max then t == s.(mutex := Nobody, main := Free)
      else t == s.(active := s.active + {k}, next := s.next[k := Null], main := PostSignal(k),
                   past := s.past.(place := s.past.place[k := Posting], runs := s.past.runs[k := 0]))
    case PostSignal(k) =>
      || (exists w :: w in s.workers && s.workers[w] == CondWait
                      && t == s.(workers := s.workers[w := Relock], main := PostLink(k)))
      || ((forall w :: w in s.workers ==> s.workers[w] != CondWait) && t == s.(main := PostLink(k)))
    case PostLink(k) =>
      var (next, first) := Linked(s.next, s.queue, k);
      t == s.(next := next, queue := s.queue.(first := first), main := PostLast(k), past := Posted(s.past, k))
    case PostLast(k) => t == s.(queue := s.queue.(last := NextOf(k)), main := PostCount)
    case PostCount => t == s.(waiting := s.waiting + 1, main := PostUnlock)
    case PostUnlock => t == s.(mutex := Nobody, main := Free)
  }

  ghost predicate Step(s: State, t: State) {
    MainStep(s, t) || exists w :: w in s.workers && WorkerStep(s, t, w)
  }

  // Lists.

  predicate NoDup(q: seq<Task>) {
    forall i, j :: 0 <= i < j < |q| ==> q[i] != q[j]
  }

  lemma NoDupAppend(q: seq<Task>, k: Task)
    requires NoDup(q) && k !in q
    ensures NoDup(q + [k])
  {
  }

  lemma NoDupTail(k: Task, q: seq<Task>)
    requires NoDup([k] + q)
    ensures NoDup(q) && k !in q
  {
    assert forall i :: 0 <= i < |q| ==> q[i] == ([k] + q)[i + 1];
    assert ([k] + q)[0] == k;
  }

  /** Following `next` from p yields the tasks of q and then null. */
  predicate Chain(next: map<Task, Ptr>, p: Ptr, q: seq<Task>)
    decreases |q|
  {
    if q == [] then p == Null else p == At(q[0]) && q[0] in next && Chain(next, next[q[0]], q[1..])
  }

  /** The slot that the next task goes into. */
  function End(q: seq<Task>): Slot {
    if q == [] then First else NextOf(q[|q| - 1])
  }

  /** A write to the next field of a task outside the list does not matter. */
  lemma {:induction false} ChainKept(next: map<Task, Ptr>, p: Ptr, q: seq<Task>, k: Task, to: Ptr)
    requires Chain(next, p, q) && k !in q
    ensures Chain(next[k := to], p, q)
    decreases |q|
  {
    if q != [] {
      ChainKept(next, next[q[0]], q[1..], k, to);
    }
  }

  /** *last = k, with last at the end of the list. */
  lemma {:induction false} ChainAppend(next: map<Task, Ptr>, p: Ptr, q: seq<Task>, k: Task)
    requires Chain(next, p, q) && NoDup(q) && k !in q && k in next && next[k] == Null
    ensures q == [] ==> Chain(next, At(k), q + [k])
    ensures q != [] ==> Chain(next[q[|q| - 1] := At(k)], p, q + [k])
    decreases |q|
  {
    if q == [] {
      assert [k][1..] == [];
    } else if |q| == 1 {
      assert q + [k] == [q[0], k] && (q + [k])[1..] == [k] && [k][1..] == [];
    } else {
      assert q == [q[0]] + q[1..];
      NoDupTail(q[0], q[1..]);
      ChainAppend(next, next[q[0]], q[1..], k);
      assert (q + [k])[1..] == q[1..] + [k];
    }
  }

  /** The list after the write. */
  lemma ChainLinked(next: map<Task, Ptr>, l: List, q: seq<Task>, k: Task)
    requires Chain(next, l.first, q) && l.last == End(q) && NoDup(q) && k !in q && k in next && next[k] == Null
    ensures var (n, first) := Linked(next, l, k); Chain(n, first, q + [k])
  {
    ChainAppend(next, l.first, q, k);
  }

  /** Another list is left alone by it. */
  lemma ChainBeside(next: map<Task, Ptr>, l: List, q: seq<Task>, k: Task, p: Ptr, r: seq<Task>)
    requires l.last == End(q) && Chain(next, p, r) && forall x | x in q :: x !in r
    ensures Chain(Linked(next, l, k).0, p, r)
  {
    if q != [] {
      assert q[|q| - 1] in q;
      ChainKept(next, p, r, q[|q| - 1], At(k));
    }
  }

  // The invariant.

  predicate WorkerHolds(c: WorkerPc) {
    c.Count? || c.Test? || c.Take? || c.TakeLast? || c.Unlock?
  }

  predicate MainHolds(m: MainPc) {
    !m.Free? && !m.PostLock?
  }

  /** Has counted itself but has not taken a task yet. */
  predicate Counted(c: WorkerPc) {
    c.Test? || c.CondWait? || c.Relock? || c.Take?
  }

  predicate Works(c: WorkerPc, k: Task) {
    c == TakeLast(k) || c == Unlock(k) || c == Run(k) || c == Clear(k) || c == Finish(k)
  }

  predicate Posts(m: MainPc, k: Task) {
    m == PostSignal(k) || m == PostLink(k)
  }

  function Waiters(s: State): set<Worker> {
    set w | w in s.workers && Counted(s.workers[w])
  }

  ghost predicate MutexInv(s: State) {
    && (forall w :: w in s.workers ==> (WorkerHolds(s.workers[w]) <==> s.mutex == OfWorker(w)))
    && (MainHolds(s.main) <==> s.mutex == Main)
    && (s.mutex.OfWorker? ==> s.mutex.worker in s.workers)
    && (forall w :: w in s.workers && s.workers[w] == Take ==> s.queue.first != Null)
  }

  /** The three lists are linked as they should be. */
  ghost predicate ChainInv(s: State) {
    && Chain(s.next, s.queue.first, s.past.queue)
    && Chain(s.next, s.done.first, s.past.done) && s.done.last == End(s.past.done)
    && Chain(s.next, s.walk, s.past.batch)
  }

  /** The last pointer of the queue leads to its end, unless its holder is just about to move it there. */
  ghost predicate LastInv(s: State) {
    && (s.main.PostLast? ==>
          s.past.queue != [] && s.past.queue[|s.past.queue| - 1] == s.main.task
          && s.queue.last == End(s.past.queue[..|s.past.queue| - 1]))
    && (!s.main.PostLast? ==>
          s.queue.last == End(s.past.queue)
          || (s.past.queue == [] && exists w :: w in s.workers && s.workers[w].TakeLast?))
  }

  /** Tasks about to be linked end a list: their next is null. */
  ghost predicate FreshInv(s: State) {
    && (forall k :: Posts(s.main, k) ==> k in s.next && s.next[k] == Null)
    && (forall w :: w in s.workers && s.workers[w].Finish? ==>
          s.workers[w].task in s.next && s.next[s.workers[w].task] == Null)
  }

  /** What the completion handler still has in hand, and the done list. */
  function Ended(s: State): seq<Task> {
    (if s.event.At? then [s.event.task] else []) + s.past.batch + s.past.done
  }

  /** Each list holds exactly the tasks placed there, none of them twice. */
  ghost predicate PlaceInv(s: State) {
    && NoDup(s.past.queue) && NoDup(Ended(s))
    && (forall k :: k in s.past.queue <==> PlaceOf(s, k) == Queued)
    && (forall k :: k in Ended(s) <==> PlaceOf(s, k) == Done)
    && (forall w, k :: w in s.workers ==> (Works(s.workers[w], k) <==> PlaceOf(s, k) == Running(w)))
    && (forall k :: PlaceOf(s, k).Running? ==> PlaceOf(s, k).worker in s.workers)
    && (forall k :: PlaceOf(s, k) == Posting <==> Posts(s.main, k))
    && (forall k :: k in s.active <==> PlaceOf(s, k) != Idle)
    && (forall k :: s.main == PostLock(k) || s.main == PostTest(k) ==> k !in s.active)
  }

  /** A task was run once when it is done, and not yet while it is queued or about to be run. */
  ghost predicate Once(s: State, k: Task) {
    match PlaceOf(s, k)
    case Idle => true
    case Done => Runs(s.past, k) == 1
    case Running(w) =>
      w in s.workers && Runs(s.past, k) == if s.workers[w].Clear? || s.workers[w].Finish? then 1 else 0
    case _ => Runs(s.past, k) == 0
  }

  ghost predicate OnceInv(s: State) {
    forall k :: Once(s, k)
  }

  ghost predicate CountInv(s: State) {
    && s.waiting == |s.past.queue| - |Waiters(s)| - (if s.main.PostLast? || s.main == PostCount then 1 else 0)
    && (s.main.PostSignal? || s.main.PostLink? ==> s.waiting < s.max)
    && |s.past.queue| <= s.max + |s.workers.Keys|
    && s.past.posted == s.past.taken + s.past.queue
  }

  /** Someone will look at the queue: not every worker is inside cond_wait. */
  ghost predicate Awake(s: State) {
    s.workers == map[] || exists w :: w in s.workers && s.workers[w] != CondWait
  }

  ghost predicate AwakeInv(s: State) {
    s.past.queue != [] || s.main.PostLink? ==> Awake(s)
  }

  ghost predicate Inv(s: State) {
    MutexInv(s) && ChainInv(s) && LastInv(s) && FreshInv(s) && PlaceInv(s) && OnceInv(s) && CountInv(s) && AwakeInv(s)
  }

  /** The pointers tell what the history says. */
  ghost predicate Heads(s: State) {
    && (s.queue.first == if s.past.queue == [] then Null else At(s.past.queue[0]))
    && (s.walk == if s.past.batch == [] then Null else At(s.past.batch[0]))
  }

  lemma ChainHeads(s: State)
    requires ChainInv(s)
    ensures Heads(s)
  {
  }

  lemma DoneEnds(s: State)
    requires ChainInv(s)
    ensures s.done.last == End(s.past.done)
  {
  }

  lemma InitInv(s: State)
    requires Init(s)
    ensures Inv(s)
  {
    assert Waiters(s) == {};
  }

  // The mutex.

  lemma WorkerMutexStep(s: State, t: State, w: Worker)
    requires MutexInv(s) && w in s.workers && WorkerStep(s, t, w)
    ensures MutexInv(t)
  {
    assert t.workers == s.workers[w := t.workers[w]];
  }

  lemma MainMutexStep(s: State, t: State)
    requires MutexInv(s) && MainStep(s, t)
    ensures MutexInv(t)
  {
  }

  // The lists.

  /** A task that is in no list. */
  predicate Apart(s: State, k: Task) {
    k !in s.past.queue && k !in s.past.done && k !in s.past.batch
  }

  lemma ElsewhereApart(s: State, k: Task)
    requires PlaceInv(s) && (PlaceOf(s, k) == Idle || PlaceOf(s, k) == Posting || PlaceOf(s, k).Running?)
    ensures Apart(s, k)
  {
    assert k !in Ended(s);
  }

  lemma NoDupParts(a: seq<Task>, b: seq<Task>)
    requires NoDup(a + b)
    ensures NoDup(b) && forall k | k in b :: k !in a
  {
    assert forall i :: 0 <= i < |a| ==> a[i] == (a + b)[i];
    assert forall i :: 0 <= i < |b| ==> b[i] == (a + b)[|a| + i];
  }

  lemma ListsApart(s: State)
    requires PlaceInv(s)
    ensures NoDup(s.past.queue) && NoDup(s.past.done)
    ensures forall k | k in s.past.queue :: k !in s.past.done && k !in s.past.batch
    ensures forall k | k in s.past.done :: k !in s.past.queue && k !in s.past.batch
  {
    var a := (if s.event.At? then [s.event.task] else []) + s.past.batch;
    assert Ended(s) == a + s.past.done;
    NoDupParts(a, s.past.done);
    assert forall k :: k in s.past.batch ==> k in a;
    assert forall k :: k in s.past.queue ==> k !in Ended(s);
  }

  /** The next field of a task in no list is written. */
  lemma ClearedChains(s: State, t: State, k: Task)
    requires ChainInv(s) && Apart(s, k) && t.next == s.next[k := Null]
    requires t.queue == s.queue && t.done == s.done && t.walk == s.walk
    requires t.past.queue == s.past.queue && t.past.done == s.past.done && t.past.batch == s.past.batch
    ensures ChainInv(t)
  {
    ChainKept(s.next, s.queue.first, s.past.queue, k, Null);
    ChainKept(s.next, s.done.first, s.past.done, k, Null);
    ChainKept(s.next, s.walk, s.past.batch, k, Null);
  }

  lemma WorkerChains(s: State, t: State, w: Worker)
    requires ChainInv(s) && FreshInv(s) && PlaceInv(s) && w in s.workers && WorkerStep(s, t, w)
    ensures ChainInv(t)
  {
    hide ChainInv, FreshInv, PlaceInv;
    match s.workers[w]
    case Clear(k) => ClearChains(s, t, w);
    case Finish(k) => FinishChains(s, t, w);
    case _ => WorkerChainsSame(s, t, w);
  }

  lemma ClearChains(s: State, t: State, w: Worker)
    requires ChainInv(s) && PlaceInv(s) && w in s.workers && s.workers[w].Clear? && WorkerStep(s, t, w)
    ensures ChainInv(t)
  {
    var k := s.workers[w].task;
    assert Works(s.workers[w], k);
    ElsewhereApart(s, k);
    hide PlaceInv, ChainInv;
    ClearedChains(s, t, k);
  }

  lemma FinishChains(s: State, t: State, w: Worker)
    requires ChainInv(s) && FreshInv(s) && PlaceInv(s) && w in s.workers && s.workers[w].Finish? && WorkerStep(s, t, w)
    ensures ChainInv(t)
  {
    hide Chain, End, NoDup;
    var k := s.workers[w].task;
    FinisherApart(s, w);
    ListsApart(s);
    hide PlaceInv, FreshInv;
    ChainLinked(s.next, s.done, s.past.done, k);
    ChainBeside(s.next, s.done, s.past.done, k, s.queue.first, s.past.queue);
    ChainBeside(s.next, s.done, s.past.done, k, s.walk, s.past.batch);
    EndIs(s.past.done, k);
  }

  lemma EndIs(q: seq<Task>, k: Task)
    ensures End(q + [k]) == NextOf(k)
  {
  }

  lemma FinisherApart(s: State, w: Worker)
    requires PlaceInv(s) && FreshInv(s) && w in s.workers && s.workers[w].Finish?
    ensures Apart(s, s.workers[w].task) && s.workers[w].task in s.next && s.next[s.workers[w].task] == Null
  {
    assert Works(s.workers[w], s.workers[w].task);
    ElsewhereApart(s, s.workers[w].task);
  }

  lemma WorkerChainsSame(s: State, t: State, w: Worker)
    requires ChainInv(s) && w in s.workers && !s.workers[w].Clear? && !s.workers[w].Finish? && WorkerStep(s, t, w)
    ensures ChainInv(t)
  {
  }

  lemma MainChains(s: State, t: State)
    requires ChainInv(s) && FreshInv(s) && PlaceInv(s) && LastInv(s) && MutexInv(s) && MainStep(s, t)
    ensures ChainInv(t)
  {
    hide ChainInv, FreshInv, PlaceInv, LastInv, MutexInv, MainStep;
    if s.main.PostTest? {
      AcceptChains(s, t);
    } else if s.main.PostLink? {
      LastAtLink(s);
      LinkChains(s, t);
    } else {
      MainChainsSame(s, t);
    }
  }

  lemma LastAtLink(s: State)
    requires LastInv(s) && MutexInv(s) && s.main.PostLink?
    ensures s.queue.last == End(s.past.queue)
  {
    assert s.mutex == Main;
  }

  lemma AcceptChains(s: State, t: State)
    requires ChainInv(s) && PlaceInv(s) && s.main.PostTest? && MainStep(s, t)
    ensures ChainInv(t)
  {
    var k := s.main.task;
    assert PlaceOf(s, k) == Idle;
    ElsewhereApart(s, k);
    hide PlaceInv;
    if s.waiting < s.max {
      ClearedChains(s, t, k);
    }
  }

  lemma LinkChains(s: State, t: State)
    requires ChainInv(s) && FreshInv(s) && PlaceInv(s)
    requires s.queue.last == End(s.past.queue) && s.main.PostLink? && MainStep(s, t)
    ensures ChainInv(t)
  {
    var k := s.main.task;
    assert Posts(s.main, k) && PlaceOf(s, k) == Posting;
    ElsewhereApart(s, k);
    ListsApart(s);
    hide PlaceInv;
    ChainLinked(s.next, s.queue, s.past.queue, k);
    ChainBeside(s.next, s.queue, s.past.queue, k, s.done.first, s.past.done);
    ChainBeside(s.next, s.queue, s.past.queue, k, s.walk, s.past.batch);
  }

  lemma MainChainsSame(s: State, t: State)
    requires ChainInv(s) && !s.main.PostTest? && !s.main.PostLink? && MainStep(s, t)
    ensures ChainInv(t)
  {
  }

  lemma WorkerLast(s: State, t: State, w: Worker)
    requires LastInv(s) && MutexInv(s) && Heads(s) && Heads(t) && w in s.workers && WorkerStep(s, t, w)
    ensures LastInv(t)
  {
    assert t.workers == s.workers[w := t.workers[w]] && t.main == s.main;
    if s.workers[w] == Take {
      assert s.mutex == OfWorker(w) && !s.main.PostLast?;
      TakersAlone(s, w);
      assert t.past.queue != [] ==> End(t.past.queue) == End(s.past.queue);
      assert t.workers[w].TakeLast?;
    } else if s.past.queue == [] && !s.main.PostLast? && s.queue.last != First {
      var v :| v in s.workers && s.workers[v].TakeLast?;
      assert v in t.workers && (v != w ==> t.workers[v].TakeLast?);
    }
  }

  lemma MainLast(s: State, t: State)
    requires LastInv(s) && MutexInv(s) && MainStep(s, t)
    ensures LastInv(t)
  {
    if s.main.PostLink? {
      assert t.past.queue[..|t.past.queue| - 1] == s.past.queue;
    }
  }

  /** Two workers that finish have different tasks. */
  lemma FinishersApart(s: State, v: Worker, w: Worker)
    requires PlaceInv(s) && v in s.workers && w in s.workers && s.workers[v].Finish?
    requires s.workers[w].Clear? || s.workers[w].Finish?
    ensures v != w ==> s.workers[v].task != s.workers[w].task
    ensures PlaceOf(s, s.workers[v].task) == Running(v) && PlaceOf(s, s.workers[w].task) == Running(w)
  {
    var k, l := s.workers[v].task, s.workers[w].task;
    assert Works(s.workers[v], k) && Works(s.workers[w], l);
    assert PlaceOf(s, k).worker == v && PlaceOf(s, l).worker == w;
  }

  /** The task at the end of a list is neither being posted nor just finished. */
  lemma WorkerFresh(s: State, t: State, w: Worker)
    requires FreshInv(s) && PlaceInv(s) && s.done.last == End(s.past.done) && w in s.workers && WorkerStep(s, t, w)
    ensures FreshInv(t)
  {
    EndPlaces(s);
    assert t.workers == s.workers[w := t.workers[w]] && t.main == s.main;
    hide PlaceInv, WorkerStep;
    forall k | Posts(t.main, k)
      ensures k in t.next && t.next[k] == Null
    {
      PostedApart(s, t, w, k);
    }
    forall v | v in t.workers && t.workers[v].Finish?
      ensures t.workers[v].task in t.next && t.next[t.workers[v].task] == Null
    {
      FinishedApart(s, t, w, v);
    }
  }

  lemma PostedApart(s: State, t: State, w: Worker, k: Task)
    requires FreshInv(s) && PlaceInv(s) && s.done.last == End(s.past.done) && w in s.workers && WorkerStep(s, t, w)
    requires Posts(s.main, k)
    ensures k in t.next && t.next[k] == Null
  {
    EndPlaces(s);
    assert PlaceOf(s, k) == Posting;
    if s.workers[w].Clear? || s.workers[w].Finish? {
      assert Works(s.workers[w], s.workers[w].task);
    }
    hide PlaceInv;
  }

  /** A step leaves the next pointer of a task at Null, unless it appends to the done list behind the task. */
  lemma NullStays(s: State, t: State, w: Worker, k: Task)
    requires w in s.workers && WorkerStep(s, t, w) && k in s.next && s.next[k] == Null
    requires s.workers[w].Finish? ==> s.done.last != NextOf(k)
    ensures k in t.next && t.next[k] == Null
  {
  }

  lemma FinishedApart(s: State, t: State, w: Worker, v: Worker)
    requires FreshInv(s) && PlaceInv(s) && s.done.last == End(s.past.done) && w in s.workers && WorkerStep(s, t, w)
    requires v in t.workers && t.workers[v].Finish?
    ensures t.workers[v].task in t.next && t.next[t.workers[v].task] == Null
  {
    OnlyWorker(s, t, w);
    if v != w {
      var k := s.workers[v].task;
      if s.workers[w].Finish? {
        EndPlaces(s);
        assert Works(s.workers[v], k);
        assert PlaceOf(s, k) == Running(v);
      }
      NullStays(s, t, w, k);
    }
  }

  lemma OnlyWorker(s: State, t: State, w: Worker)
    requires w in s.workers && WorkerStep(s, t, w)
    ensures w in t.workers && t.workers == s.workers[w := t.workers[w]]
    ensures t.workers[w].Finish? ==> t.workers[w].task in t.next && t.next[t.workers[w].task] == Null
  {
  }

  lemma EndPlaces(s: State)
    requires PlaceInv(s)
    ensures s.past.queue != [] ==> PlaceOf(s, s.past.queue[|s.past.queue| - 1]) == Queued
    ensures s.past.done != [] ==> PlaceOf(s, s.past.done[|s.past.done| - 1]) == Done
  {
    var q, d := s.past.queue, s.past.done;
    assert q != [] ==> q[|q| - 1] in q;
    if d != [] {
      assert d[|d| - 1] in Ended(s);
    }
  }

  lemma MainFresh(s: State, t: State)
    requires FreshInv(s) && PlaceInv(s) && LastInv(s) && MutexInv(s) && MainStep(s, t)
    ensures FreshInv(t)
  {
    hide LastInv, MutexInv, MainStep, PlaceInv;
    if s.main.PostLink? {
      LastAtLink(s);
    }
    forall k | Posts(t.main, k)
      ensures k in t.next && t.next[k] == Null
    {
      PostingFresh(s, t, k);
    }
    forall v | v in t.workers && t.workers[v].Finish?
      ensures t.workers[v].task in t.next && t.next[t.workers[v].task] == Null
    {
      FinishingFresh(s, t, v);
    }
  }

  lemma PostingFresh(s: State, t: State, k: Task)
    requires FreshInv(s) && MainStep(s, t) && Posts(t.main, k)
    ensures k in t.next && t.next[k] == Null
  {
    assert s.main.PostSignal? ==> Posts(s.main, s.main.task);
  }

  lemma FinishingFresh(s: State, t: State, v: Worker)
    requires FreshInv(s) && PlaceInv(s) && MainStep(s, t) && v in t.workers && t.workers[v].Finish?
    requires s.main.PostLink? ==> s.queue.last == End(s.past.queue)
    ensures t.workers[v].task in t.next && t.next[t.workers[v].task] == Null
  {
    EndPlaces(s);
    assert v in s.workers && s.workers[v] == t.workers[v];
    assert Works(s.workers[v], s.workers[v].task);
    if s.main.PostTest? {
      assert PlaceOf(s, s.main.task) == Idle;
    }
    hide PlaceInv;
  }

  // Nobody sleeps over a task.

  lemma WorkerAwakeStep(s: State, t: State, w: Worker)
    requires AwakeInv(s) && MutexInv(s) && Heads(s) && w in s.workers && WorkerStep(s, t, w)
    ensures AwakeInv(t)
  {
    assert w in t.workers;
  }

  lemma MainAwakeStep(s: State, t: State)
    requires AwakeInv(s) && MainStep(s, t)
    ensures AwakeInv(t)
  {
    if s.main.PostSignal? {
      if w :| w in s.workers && s.workers[w] == CondWait && t.workers == s.workers[w := Relock] {
        assert w in t.workers && t.workers[w] != CondWait;
      } else if t.workers != map[] {
        var v :| v in s.workers;
        assert v in t.workers && t.workers[v] != CondWait;
      }
    } else {
      assert t.workers == s.workers;
    }
  }

  // Every task in its place.

  lemma TakeKeepsPlaces(s: State, t: State, w: Worker)
    requires PlaceInv(s) && Heads(s) && w in s.workers && s.workers[w] == Take && WorkerStep(s, t, w)
    ensures PlaceInv(t)
  {
    var k := s.past.queue[0];
    assert s.past.queue == [k] + t.past.queue;
    NoDupTail(k, t.past.queue);
    assert forall x :: x in s.past.queue <==> x == k || x in t.past.queue;
    assert PlaceOf(s, k) == Queued;
    assert Ended(t) == Ended(s);
  }

  lemma FinishKeepsPlaces(s: State, t: State, w: Worker)
    requires PlaceInv(s) && w in s.workers && s.workers[w].Finish? && WorkerStep(s, t, w)
    ensures PlaceInv(t)
  {
    var k := s.workers[w].task;
    assert Works(s.workers[w], k);
    assert Ended(t) == Ended(s) + [k];
    NoDupAppend(Ended(s), k);
  }

  lemma SamePlaces(s: State, t: State)
    requires PlaceInv(s) && t.past.place == s.past.place && t.past.queue == s.past.queue && Ended(t) == Ended(s)
    requires t.active == s.active
    requires t.workers.Keys == s.workers.Keys
    requires forall w, k :: w in s.workers ==> (Works(t.workers[w], k) <==> Works(s.workers[w], k))
    requires forall k :: Posts(t.main, k) <==> Posts(s.main, k)
    requires forall k :: t.main == PostLock(k) || t.main == PostTest(k) ==> k !in t.active
    ensures PlaceInv(t)
  {
    assert forall k :: PlaceOf(t, k) == PlaceOf(s, k);
  }

  lemma WorkerKeepsPlaces(s: State, t: State, w: Worker)
    requires Heads(s) && PlaceInv(s) && w in s.workers && WorkerStep(s, t, w)
    ensures PlaceInv(t)
  {
    if s.workers[w] == Take {
      TakeKeepsPlaces(s, t, w);
    } else if s.workers[w].Finish? {
      FinishKeepsPlaces(s, t, w);
    } else {
      assert forall k :: Works(t.workers[w], k) <==> Works(s.workers[w], k);
      SamePlaces(s, t);
    }
  }

  lemma LinkKeepsPlaces(s: State, t: State)
    requires PlaceInv(s) && s.main.PostLink? && MainStep(s, t)
    ensures PlaceInv(t)
  {
    var k := s.main.task;
    assert Posts(s.main, k);
    assert PlaceOf(s, k) == Posting;
    NoDupAppend(s.past.queue, k);
    assert Ended(t) == Ended(s);
  }

  lemma CompleteKeepsPlaces(s: State, t: State)
    requires PlaceInv(s) && s.main.Free? && s.event.At? && t == Completed(s)
    ensures PlaceInv(t)
  {
    var k := s.event.task;
    assert Ended(s) == [k] + Ended(t);
    NoDupTail(k, Ended(t));
    assert k in Ended(s);
    assert forall x :: x in Ended(s) <==> x == k || x in Ended(t);
  }

  lemma AcceptKeepsPlaces(s: State, t: State)
    requires PlaceInv(s) && s.main.PostTest? && s.waiting < s.max && MainStep(s, t)
    ensures PlaceInv(t)
  {
    var k := s.main.task;
    assert PlaceOf(s, k) == Idle;
    assert Ended(t) == Ended(s);
  }

  lemma FreeKeepsPlaces(s: State, t: State)
    requires PlaceInv(s) && Heads(s) && s.main.Free? && FreeStep(s, t)
    ensures PlaceInv(t)
  {
    if s.event.At? && t == Completed(s) {
      CompleteKeepsPlaces(s, t);
    } else {
      assert Ended(t) == Ended(s);
      SamePlaces(s, t);
    }
  }

  lemma MainKeepsPlaces(s: State, t: State)
    requires PlaceInv(s) && Heads(s) && MainStep(s, t)
    ensures PlaceInv(t)
  {
    if s.main.Free? {
      FreeKeepsPlaces(s, t);
    } else if s.main.PostLink? {
      LinkKeepsPlaces(s, t);
    } else if s.main.PostTest? && s.waiting < s.max {
      AcceptKeepsPlaces(s, t);
    } else {
      SamePlaces(s, t);
    }
  }

  // How often tasks are run.

  lemma WorkerOnce(s: State, t: State, w: Worker)
    requires OnceInv(s) && PlaceInv(s) && Heads(s) && w in s.workers && WorkerStep(s, t, w)
    ensures OnceInv(t)
  {
    hide Heads;
    TakesQueued(s, t, w);
    forall k
      ensures Once(t, k)
    {
      assert Once(s, k);
      assert Works(s.workers[w], k) <==> PlaceOf(s, k) == Running(w);
      hide PlaceInv, OnceInv, NoDup;
    }
  }

  lemma TakesQueued(s: State, t: State, w: Worker)
    requires PlaceInv(s) && Heads(s) && w in s.workers && WorkerStep(s, t, w)
    ensures s.workers[w] == Take ==> t.workers[w].TakeLast? && PlaceOf(s, t.workers[w].task) == Queued
  {
    if s.workers[w] == Take {
      assert s.past.queue[0] in s.past.queue;
    }
  }

  lemma MainOnce(s: State, t: State)
    requires OnceInv(s) && PlaceInv(s) && MainStep(s, t)
    ensures OnceInv(t)
  {
    forall k
      ensures Once(t, k)
    {
      assert Once(s, k);
      assert PlaceOf(s, k) == Posting <==> Posts(s.main, k);
      assert k in s.active <==> PlaceOf(s, k) != Idle;
      hide PlaceInv, OnceInv, NoDup;
    }
  }

  // The counter.

  /** What a worker's step does to the numbers. */
  lemma WorkerCounts(s: State, t: State, w: Worker)
    requires Heads(s) && w in s.workers && WorkerStep(s, t, w)
    ensures w in t.workers && t.workers == s.workers[w := t.workers[w]] && t.main == s.main && t.max == s.max
    ensures t.waiting == s.waiting - (if s.workers[w] == Count then 1 else 0)
    ensures s.workers[w] != Take ==>
      t.past.queue == s.past.queue && t.past.posted == s.past.posted && t.past.taken == s.past.taken
    ensures s.workers[w] == Take ==>
      s.past.queue != [] && t.past.queue == s.past.queue[1..] && t.past.posted == s.past.posted
      && t.past.taken == s.past.taken + [s.past.queue[0]]
    ensures (if Counted(t.workers[w]) then 1 else 0) - (if Counted(s.workers[w]) then 1 else 0)
      == (if s.workers[w] == Count then 1 else 0) - (if s.workers[w] == Take then 1 else 0)
  {
  }

  lemma WorkerCountStep(s: State, t: State, w: Worker)
    requires Heads(s) && CountInv(s) && w in s.workers && WorkerStep(s, t, w)
    ensures CountInv(t)
  {
    WorkerCounts(s, t, w);
    hide WorkerStep, Waiters, Counted, Heads;
    OneWaiter(s, t, w);
    assert t.workers.Keys == s.workers.Keys;
    if s.workers[w] == Take {
      assert s.past.queue == [s.past.queue[0]] + t.past.queue;
      assert s.past.taken + s.past.queue == t.past.taken + t.past.queue;
    }
  }

  lemma OneWaiter(s: State, t: State, w: Worker)
    requires w in s.workers && w in t.workers && t.workers == s.workers[w := t.workers[w]]
    ensures |Waiters(t)| ==
      |Waiters(s)| - (if Counted(s.workers[w]) then 1 else 0) + (if Counted(t.workers[w]) then 1 else 0)
  {
    var a, b := Waiters(s), Waiters(t);
    assert a - {w} == b - {w};
    SizeWithout(a, w);
    SizeWithout(b, w);
  }

  lemma SizeWithout(a: set<Worker>, w: Worker)
    ensures |a| == |a - {w}| + if w in a then 1 else 0
  {
    if w in a {
      assert a == (a - {w}) + {w};
    } else {
      assert a == a - {w};
    }
  }

  lemma {:induction false} Subset(a: set<Worker>, b: set<Worker>)
    requires a <= b
    ensures |a| <= |b|
  {
    if a != {} {
      var x :| x in a;
      Subset(a - {x}, b - {x});
    }
  }

  lemma MainCounts(s: State, t: State)
    requires MainStep(s, t)
    ensures t.max == s.max && t.workers.Keys == s.workers.Keys && Waiters(t) == Waiters(s)
    ensures t.waiting == s.waiting + (if s.main == PostCount then 1 else 0) && t.past.taken == s.past.taken
    ensures if s.main.PostLink? then t.past.queue == s.past.queue + [s.main.task]
      && t.past.posted == s.past.posted + [s.main.task]
            else t.past.queue == s.past.queue && t.past.posted == s.past.posted
    ensures s.main == PostCount || s.main.PostLast? ==> t.main == if s.main == PostCount then PostUnlock else PostCount
    ensures s.main.PostLink? ==> t.main == PostLast(s.main.task)
    ensures !s.main.PostLink? && !s.main.PostLast? ==> !t.main.PostLast? && t.main != PostCount
    ensures t.main.PostSignal? ==> s.waiting < s.max
    ensures t.main.PostLink? ==> s.main.PostSignal?
  {
    assert t.workers == s.workers || exists v ::
      v in s.workers && s.workers[v] == CondWait && t.workers == s.workers[v := Relock];
    if t.workers != s.workers {
      var v :| v in s.workers && s.workers[v] == CondWait && t.workers == s.workers[v := Relock];
      assert t.workers.Keys == s.workers.Keys;
    }
  }

  lemma MainCountStep(s: State, t: State)
    requires CountInv(s) && MainStep(s, t)
    ensures CountInv(t)
  {
    MainCounts(s, t);
    hide MainStep;
    assert Waiters(s) <= s.workers.Keys;
    hide Waiters;
    Subset(Waiters(s), s.workers.Keys);
    if s.main.PostLink? {
      assert t.past.posted == t.past.taken + t.past.queue;
    }
  }

  // Every run.

  lemma SamePool(s: State, t: State)
    requires Step(s, t)
    ensures t.workers.Keys == s.workers.Keys && t.max == s.max
  {
    if !MainStep(s, t) {
      var w :| w in s.workers && WorkerStep(s, t, w);
      WorkerSamePool(s, t, w);
    } else {
      MainSamePool(s, t);
    }
  }

  lemma WorkerSamePool(s: State, t: State, w: Worker)
    requires w in s.workers && WorkerStep(s, t, w)
    ensures t.workers.Keys == s.workers.Keys && t.max == s.max
  {
  }

  lemma MainSamePool(s: State, t: State)
    requires MainStep(s, t)
    ensures t.workers.Keys == s.workers.Keys && t.max == s.max
  {
  }

  lemma WorkerInv(s: State, t: State, w: Worker)
    requires Inv(s) && w in s.workers && WorkerStep(s, t, w)
    ensures Inv(t)
  {
    hide MutexInv, ChainInv, LastInv, FreshInv, PlaceInv, OnceInv, CountInv, AwakeInv, WorkerStep, Heads;
    ChainHeads(s);
    WorkerMutexStep(s, t, w);
    WorkerChains(s, t, w);
    ChainHeads(t);
    WorkerLast(s, t, w);
    DoneEnds(s);
    WorkerFresh(s, t, w);
    WorkerKeepsPlaces(s, t, w);
    WorkerOnce(s, t, w);
    WorkerCountStep(s, t, w);
    WorkerAwakeStep(s, t, w);
  }

  lemma MainInv(s: State, t: State)
    requires Inv(s) && MainStep(s, t)
    ensures Inv(t)
  {
    hide MutexInv, ChainInv, LastInv, FreshInv, PlaceInv, OnceInv, CountInv, AwakeInv, MainStep, Heads;
    ChainHeads(s);
    MainMutexStep(s, t);
    MainChains(s, t);
    MainLast(s, t);
    MainFresh(s, t);
    MainKeepsPlaces(s, t);
    MainOnce(s, t);
    MainCountStep(s, t);
    MainAwakeStep(s, t);
  }

  lemma StepInv(s: State, t: State)
    requires Inv(s) && Step(s, t)
    ensures Inv(t) && t.workers.Keys == s.workers.Keys && t.max == s.max
  {
    hide Inv, MainStep, WorkerStep;
    SamePool(s, t);
    if MainStep(s, t) {
      MainInv(s, t);
    } else {
      var w :| w in s.workers && WorkerStep(s, t, w);
      WorkerInv(s, t, w);
    }
  }

  ghost predicate Trace(states: seq<State>) {
    states != [] && Init(states[0]) && forall i :: 0 < i < |states| ==> Step(states[i - 1], states[i])
  }

  lemma {:induction false} RunInv(states: seq<State>, n: nat)
    requires Trace(states) && n < |states|
    ensures Inv(states[n]) && states[n].workers.Keys == states[0].workers.Keys && states[n].max == states[0].max
  {
    hide Inv, Step, Init;
    if n == 0 {
      InitInv(states[0]);
    } else {
      RunInv(states, n - 1);
      StepInv(states[n - 1], states[n]);
    }
  }

  /** How often a task occurs in the queue, on the done list, before the completion handler,
      in the hands of a worker or in the hands of task_post. */
  function Occurrences(s: State, k: Task): nat {
    multiset(s.past.queue)[k] + multiset(Ended(s))[k] + |set w | w in s.workers && Works(s.workers[w], k)|
    + (if Posts(s.main, k) then 1 else 0)
  }

  lemma {:induction false} NoDupCount(q: seq<Task>, k: Task)
    requires NoDup(q)
    ensures multiset(q)[k] == if k in q then 1 else 0
  {
    if q != [] {
      assert q == [q[0]] + q[1..];
      NoDupTail(q[0], q[1..]);
      NoDupCount(q[1..], k);
    }
  }

  lemma OnePlace(s: State, k: Task)
    requires PlaceInv(s)
    ensures Occurrences(s, k) == if k in s.active then 1 else 0
  {
    NoDupCount(s.past.queue, k);
    NoDupCount(Ended(s), k);
    var ws := set w | w in s.workers && Works(s.workers[w], k);
    assert ws == if PlaceOf(s, k).Running? then {PlaceOf(s, k).worker} else {};
    hide NoDup, Works, Ended;
  }

  /** A task whose event is active is in exactly one place, and one that is not is nowhere:
      a task is never run twice, lost or completed while it is still queued. */
  lemma EveryTaskInOnePlace(states: seq<State>, n: nat, k: Task)
    requires Trace(states) && n < |states|
    ensures Occurrences(states[n], k) == if k in states[n].active then 1 else 0
  {
    hide Trace, Occurrences, PlaceInv;
    RunInv(states, n);
    OnePlace(states[n], k);
  }

  /** Following the pointers yields the tasks that were posted and not yet taken, in the order in which they were
      posted, and those that were finished and not yet completed, in the order in which they were finished. */
  lemma PointersTell(states: seq<State>, n: nat)
    requires Trace(states) && n < |states|
    ensures var s := states[n];
      && Chain(s.next, s.queue.first, s.past.queue) && s.past.posted == s.past.taken + s.past.queue
      && Chain(s.next, s.walk, s.past.batch) && Chain(s.next, s.done.first, s.past.done)
  {
    RunInv(states, n);
  }

  /** Only one sequence of tasks is found by following pointers. */
  lemma {:induction false} ChainIsOne(next: map<Task, Ptr>, p: Ptr, q: seq<Task>, r: seq<Task>)
    requires Chain(next, p, q) && Chain(next, p, r)
    ensures q == r
    decreases |q|
  {
    if q != [] {
      ChainIsOne(next, next[q[0]], q[1..], r[1..]);
      assert q == [q[0]] + q[1..] && r == [r[0]] + r[1..];
    }
  }

  /** A worker takes, through the first pointer, the task posted longest ago of those not taken yet. */
  lemma FirstInFirstOut(states: seq<State>, n: nat, w: Worker)
    requires Trace(states) && n + 1 < |states| && w in states[n].workers && states[n].workers[w] == Take
    requires WorkerStep(states[n], states[n + 1], w)
    ensures states[n + 1].workers[w].TakeLast?
    ensures var k := states[n + 1].workers[w].task;
      && |states[n].past.taken| < |states[n].past.posted|
      && k == states[n].past.posted[|states[n].past.taken|]
      && states[n + 1].past.taken == states[n].past.taken + [k]
  {
    hide Trace;
    RunInv(states, n);
    ChainHeads(states[n]);
  }

  /** The next task read by the completion handler is the one finished longest ago of those it took over. */
  lemma CompletedInOrder(states: seq<State>, n: nat)
    requires Trace(states) && n < |states| && states[n].main.Free? && states[n].event == Null && states[n].walk != Null
    ensures var s := states[n]; s.walk.task in s.next && s.past.batch != [] && s.walk == At(s.past.batch[0])
  {
    RunInv(states, n);
  }

  /** `waiting` is the queue length less the workers that have counted themselves and not yet
      taken a task; since those may all be asleep, the queue can outgrow max_queue, but never
      by more than the number of workers. */
  lemma QueueIsBounded(states: seq<State>, n: nat)
    requires Trace(states) && n < |states|
    ensures var s := states[n];
      && (s.mutex == Nobody ==> s.waiting == |s.past.queue| - |Waiters(s)|)
      && |s.past.queue| <= s.max + |states[0].workers.Keys|
  {
    RunInv(states, n);
  }

  /** No stranded task: while tasks are queued, some worker is not asleep in cond_wait. */
  lemma NoStrandedTask(states: seq<State>, n: nat)
    requires Trace(states) && n < |states| && states[n].queue.first != Null && states[0].workers != map[]
    ensures exists w :: w in states[n].workers && states[n].workers[w] != CondWait
  {
    RunInv(states, n);
    ChainHeads(states[n]);
    assert states[n].workers.Keys != {};
  }

  /** The worker that unlinks a task finds one, and when it is about to fix the last pointer, the queue ends
      where that pointer leads or is empty. */
  lemma TakeFindsATask(states: seq<State>, n: nat, w: Worker)
    requires Trace(states) && n < |states| && w in states[n].workers && states[n].workers[w] == Take
    ensures var s := states[n]; s.queue.first.At? && s.queue.first.task in s.next && s.queue.last == End(s.past.queue)
  {
    RunInv(states, n);
    ChainHeads(states[n]);
    TakersAlone(states[n], w);
  }

  lemma TakersAlone(s: State, w: Worker)
    requires MutexInv(s) && Heads(s) && LastInv(s) && w in s.workers && s.workers[w] == Take
    ensures s.queue.last == End(s.past.queue)
  {
    assert s.mutex == OfWorker(w) && s.past.queue != [];
  }

  /** When its completion handler is called, a task has been run once since it was accepted. */
  lemma RunOnce(states: seq<State>, n: nat)
    requires Trace(states) && n < |states| && states[n].event.At?
    ensures Runs(states[n].past, states[n].event.task) == 1
  {
    hide Trace;
    RunInv(states, n);
    var s, k := states[n], states[n].event.task;
    assert k in Ended(s) && Once(s, k);
  }

  /** A post is refused exactly when the tasks queued are no fewer than max_queue and the workers that wait for one;
      otherwise the task is accepted. */
  lemma RefusedIffFull(states: seq<State>, n: nat, k: Task)
    requires Trace(states) && n + 1 < |states| && states[n].main == PostTest(k) && MainStep(states[n], states[n + 1])
    ensures var s, t := states[n], states[n + 1];
      if |s.past.queue| - |Waiters(s)| >= s.max then
        t == s.(mutex := Nobody, main := Free)
      else
        t.main == PostSignal(k) && t.mutex == Main && t.active == s.active + {k} && t.past.queue == s.past.queue
  {
    hide Trace;
    RunInv(states, n);
  }

  /** An accepted task is on its way into the queue, or is its last one. */
  ghost predicate Underway(s: State, k: Task) {
    s.mutex == Main
    && (Posts(s.main, k) || ((s.main.PostLast? || s.main == PostCount || s.main == PostUnlock) && Ends(s, k)))
  }

  predicate Ends(s: State, k: Task) {
    s.past.queue != [] && s.past.queue[|s.past.queue| - 1] == k
  }

  lemma UnderwayStep(s: State, t: State, k: Task)
    requires Inv(s) && Underway(s, k) && Step(s, t)
    ensures Underway(t, k) || (t.mutex == Nobody && t.main == Free && Ends(t, k))
  {
    hide ChainInv, LastInv, FreshInv, PlaceInv, OnceInv, CountInv, AwakeInv;
  }

  /** It is queued before the mutex is given up. */
  lemma {:induction false} AcceptedIsQueued(states: seq<State>, n: nat, m: nat, k: Task)
    requires Trace(states) && n < m < |states| && states[n].main == PostSignal(k)
    requires forall i | n <= i < m :: states[i].mutex == Main
    ensures Underway(states[m], k) || (states[m].mutex == Nobody && states[m].main == Free && Ends(states[m], k))
    decreases m - n
  {
    assert Step(states[m - 1], states[m]);
    hide Trace, Inv, Step, Ends;
    RunInv(states, m - 1);
    if n + 1 < m {
      AcceptedIsQueued(states, n, m - 1, k);
    }
    UnderwayStep(states[m - 1], states[m], k);
  }

  /** A worker that has looked at the queue waits exactly when it is empty, and takes a task otherwise. */
  lemma WaitsIffEmpty(states: seq<State>, n: nat, w: Worker)
    requires Trace(states) && n + 1 < |states| && w in states[n].workers && states[n].workers[w] == Test
    requires WorkerStep(states[n], states[n + 1], w)
    ensures states[n + 1].workers[w] == if states[n].past.queue == [] then CondWait else Take
  {
    hide Trace;
    RunInv(states, n);
    ChainHeads(states[n]);
  }

  /** Only the mutex makes anyone wait: the event loop can go on, ... */
  lemma MainGoesOn(states: seq<State>, n: nat)
    requires Trace(states) && n < |states| && (states[n].main.PostLock? ==> states[n].mutex == Nobody)
    ensures exists t :: MainStep(states[n], t)
  {
    hide Trace;
    RunInv(states, n);
    MainCan(states[n]);
  }

  lemma MainCan(s: State)
    requires Inv(s) && (s.main.PostLock? ==> s.mutex == Nobody)
    ensures exists t :: MainStep(s, t)
  {
    hide MutexInv, LastInv, PlaceInv, OnceInv, CountInv, AwakeInv;
    match s.main
    case Free =>
      var t := if s.event.At? then Completed(s) else if s.walk.At? then Read(s) else TakenOver(s);
      assert MainStep(s, t);
    case PostLock(k) => assert MainStep(s, s.(mutex := Main, main := PostTest(k)));
    case PostTest(k) =>
      var t := if s.waiting >= s.max then s.(mutex := Nobody, main := Free)
        else s.(active := s.active + {k}, next := s.next[k := Null], main := PostSignal(k),
                past := s.past.(place := s.past.place[k := Posting], runs := s.past.runs[k := 0]));
      assert MainStep(s, t);
    case PostSignal(k) =>
      if w :| w in s.workers && s.workers[w] == CondWait {
        assert MainStep(s, s.(workers := s.workers[w := Relock], main := PostLink(k)));
      } else {
        assert MainStep(s, s.(main := PostLink(k)));
      }
    case PostLink(k) =>
      var (next, first) := Linked(s.next, s.queue, k);
      var t := s.(next := next, queue := s.queue.(first := first), main := PostLast(k), past := Posted(s.past, k));
      assert MainStep(s, t);
    case PostLast(k) => assert MainStep(s, s.(queue := s.queue.(last := NextOf(k)), main := PostCount));
    case PostCount => assert MainStep(s, s.(waiting := s.waiting + 1, main := PostUnlock));
    case PostUnlock => assert MainStep(s, s.(mutex := Nobody, main := Free));
  }

  /** ... and so can every worker. */
  lemma WorkerGoesOn(states: seq<State>, n: nat, w: Worker)
    requires Trace(states) && n < |states| && w in states[n].workers
    requires states[n].workers[w] == Lock || states[n].workers[w] == Relock ==> states[n].mutex == Nobody
    ensures exists t :: WorkerStep(states[n], t, w)
  {
    hide Trace;
    RunInv(states, n);
    WorkerCan(states[n], w);
  }

  lemma WorkerCan(s: State, w: Worker)
    requires Inv(s) && w in s.workers && (s.workers[w] == Lock || s.workers[w] == Relock ==> s.mutex == Nobody)
    ensures exists t :: WorkerStep(s, t, w)
  {
    hide LastInv, PlaceInv, OnceInv, CountInv, AwakeInv;
    var ws := s.workers;
    match ws[w]
    case Lock => assert WorkerStep(s, s.(mutex := OfWorker(w), workers := ws[w := Count]), w);
    case Count => assert WorkerStep(s, s.(waiting := s.waiting - 1, workers := ws[w := Test]), w);
    case Test =>
      var t := if s.queue.first == Null then s.(mutex := Nobody, workers := ws[w := CondWait])
        else s.(workers := ws[w := Take]);
      assert WorkerStep(s, t, w);
    case CondWait => assert WorkerStep(s, s.(workers := ws[w := Relock]), w);
    case Relock => assert WorkerStep(s, s.(mutex := OfWorker(w), workers := ws[w := Test]), w);
    case Take =>
      var k := s.queue.first.task;
      var t := s.(queue := s.queue.(first := s.next[k]), workers := ws[w := TakeLast(k)],
                  past := TakenBy(s.past, k, w));
      assert WorkerStep(s, t, w);
    case TakeLast(k) =>
      var t := s.(queue := if s.queue.first == Null then s.queue.(last := First) else s.queue,
                  workers := ws[w := Unlock(k)]);
      assert WorkerStep(s, t, w);
    case Unlock(k) => assert WorkerStep(s, s.(mutex := Nobody, workers := ws[w := Run(k)]), w);
    case Run(k) => assert WorkerStep(s, s.(workers := ws[w := Clear(k)], past := Ran(s.past, k)), w);
    case Clear(k) => assert WorkerStep(s, s.(next := s.next[k := Null], workers := ws[w := Finish(k)]), w);
    case Finish(k) =>
      var (next, first) := Linked(s.next, s.done, k);
      var t := s.(next := next, done := List(first, NextOf(k)), workers := ws[w := Lock], past := Finished(s.past, k));
      assert WorkerStep(s, t, w);
  }

  /** Whoever has the mutex can go on, so that there is always a step. */
  lemma NoDeadlock(states: seq<State>, n: nat)
    requires Trace(states) && n < |states|
    ensures exists t :: Step(states[n], t)
  {
    hide Trace, MainStep, WorkerStep;
    RunInv(states, n);
    var s := states[n];
    if s.main.PostLock? && s.mutex != Nobody {
      assert MutexInv(s);
      var w := s.mutex.worker;
      hide Inv;
      assert WorkerHolds(s.workers[w]);
      WorkerGoesOn(states, n, w);
      var t :| WorkerStep(s, t, w);
      assert Step(s, t);
    } else {
      hide Inv;
      MainGoesOn(states, n);
      var t :| MainStep(s, t);
      assert Step(s, t);
    }
  }
}
