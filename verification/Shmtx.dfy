/** The shared-memory mutex in its build with atomic operations and POSIX semaphores, as the
    atomic steps of any number of processes: each load, compare-and-set, fetch-and-add,
    sem_wait and sem_post is one step, and steps of different processes interleave freely. */
module Shmtx {

  type Pid = p: int | p != 0 witness 1

  /** Where a process stands; the comment names the next thing it does. */
  datatype Pc =
    | Idle            // outside the mutex
    | LockLoad        // in lock: test *lock == 0
    | LockCas         // in lock: compare-and-set after a successful test
    | WaitAdd         // in lock: spinning is over, add 1 to *wait
    | RetestLoad      // in lock: test *lock == 0 again
    | RetestCas       // in lock: compare-and-set after a successful test
    | WaitSub         // holds the lock, still has to take its 1 back
    | Sleep           // in sem_wait
    | TryLoad         // in trylock: test *lock == 0
    | TryCas          // in trylock: compare-and-set
    | Held            // holds the lock
    | WakeLoad        // in wakeup: read *wait
    | WakeCas(w: int) // in wakeup: compare-and-set *wait from w to w - 1
    | WakePost        // in wakeup: sem_post

  datatype State = State(lock: int, wait: int, sem: nat, pc: map<Pid, Pc>)

  ghost predicate Init(s: State) {
    s.lock == 0 && s.wait == 0 && s.sem == 0 && forall p :: p in s.pc ==> s.pc[p] == Idle
  }

  /** One atomic step of process `p`. Spinning repeats the first test any number of times. */
  ghost predicate Step(s: State, t: State, p: Pid)
    requires p in s.pc
  {
    match s.pc[p]
    case Idle => t == s.(pc := s.pc[p := LockLoad]) || t == s.(pc := s.pc[p := TryLoad]) || Unlock(s, t, p)
    case LockLoad => t == s.(pc := s.pc[p := if s.lock == 0 then LockCas else WaitAdd])
                     || (s.lock != 0 && t == s)
    case LockCas => Acquire(s, t, p, Held, WaitAdd) || (s.lock != 0 && t == s.(pc := s.pc[p := LockLoad]))
    case WaitAdd => t == s.(wait := s.wait + 1, pc := s.pc[p := RetestLoad])
    case RetestLoad => t == s.(pc := s.pc[p := if s.lock == 0 then RetestCas else Sleep])
    case RetestCas => Acquire(s, t, p, WaitSub, Sleep)
    case WaitSub => t == s.(wait := s.wait - 1, pc := s.pc[p := Held])
    case Sleep => t == s || (s.sem > 0 && t == s.(sem := s.sem - 1, pc := s.pc[p := LockLoad]))
    case TryLoad => t == s.(pc := s.pc[p := if s.lock == 0 then TryCas else Idle])
    case TryCas => Acquire(s, t, p, Held, Idle)
    case Held => Unlock(s, t, p)
    case WakeLoad => t == s.(pc := s.pc[p := if s.wait <= 0 then Idle else WakeCas(s.wait)])
    case WakeCas(w) =>
      if s.wait == w then t == s.(wait := w - 1, pc := s.pc[p := WakePost])
      else t == s.(pc := s.pc[p := WakeLoad])
    case WakePost => t == s.(sem := s.sem + 1, pc := s.pc[p := Idle])
  }

  /** Compare-and-set *lock from 0 to the pid, continuing at `yes` or `no`. */
  ghost predicate Acquire(s: State, t: State, p: Pid, yes: Pc, no: Pc)
    requires p in s.pc
  {
    if s.lock == 0 then t == s.(lock := p, pc := s.pc[p := yes]) else t == s.(pc := s.pc[p := no])
  }

  /** Compare-and-set *lock from the pid to 0: anyone may call unlock, only a holder gets through. */
  ghost predicate Unlock(s: State, t: State, p: Pid)
    requires p in s.pc
  {
    t == if s.lock == p then s.(lock := 0, pc := s.pc[p := WakeLoad]) else s.(pc := s.pc[p := Idle])
  }

  /** Has added to *wait and neither taken it back nor been woken. */
  predicate InWindow(c: Pc) {
    c.RetestLoad? || c.RetestCas? || c.WaitSub? || c.Sleep?
  }

  predicate Holds(c: Pc) {
    c.Held? || c.WaitSub?
  }

  /** Running inside lock or wakeup, so that its next steps may still help a sleeper. */
  predicate Active(c: Pc) {
    c.LockLoad? || c.LockCas? || c.WaitAdd? || c.RetestLoad? || c.RetestCas?
    || c.WakeLoad? || c.WakeCas? || c.WakePost?
  }

  function Window(s: State): set<Pid> {
    set p | p in s.pc && InWindow(s.pc[p])
  }

  function Posting(s: State): set<Pid> {
    set p | p in s.pc && s.pc[p].WakePost?
  }

  /** The lock word names the one process that holds the lock. */
  ghost predicate LockInv(s: State) {
    && (forall p :: p in s.pc ==> (Holds(s.pc[p]) <==> s.lock == p))
    && (s.lock != 0 ==> s.lock in s.pc)
  }

  /** Every process that announced itself is matched by *wait, a token or a post in flight. */
  ghost predicate CountInv(s: State) {
    && s.wait + s.sem + |Posting(s)| == |Window(s)|
    && s.sem + |Posting(s)| <= |s.pc.Keys|
    && forall p :: p in s.pc && s.pc[p].WakeCas? ==> s.pc[p].w > 0
  }

  /** While the lock is free and someone counts on a wake-up, a token or an active process is there. */
  ghost predicate WakeInv(s: State) {
    s.lock == 0 && s.wait > 0 ==> s.sem > 0 || exists p :: p in s.pc && Active(s.pc[p])
  }

  ghost predicate Inv(s: State) {
    LockInv(s) && CountInv(s) && WakeInv(s)
  }

  lemma InitInv(s: State)
    requires Init(s)
    ensures Inv(s)
  {
    assert Window(s) == {} && Posting(s) == {};
  }

  lemma StepKeepsLock(s: State, t: State, p: Pid)
    requires LockInv(s) && p in s.pc && Step(s, t, p)
    ensures LockInv(t)
  {
  }

  /** Only the place of `p` changes. */
  lemma StepMovesOne(s: State, t: State, p: Pid)
    requires p in s.pc && Step(s, t, p)
    ensures p in t.pc && t.pc == s.pc[p := t.pc[p]]
  {
  }

  lemma OneElement(a: set<Pid>, b: set<Pid>, p: Pid)
    requires forall q :: q != p ==> (q in a <==> q in b)
    ensures |b| == |a| - (if p in a then 1 else 0) + (if p in b then 1 else 0)
  {
    assert a - {p} == b - {p};
    assert a == if p in a then (a - {p}) + {p} else a - {p};
    assert b == if p in b then (b - {p}) + {p} else b - {p};
  }

  lemma WindowStep(s: State, t: State, p: Pid)
    requires p in s.pc && p in t.pc && t.pc == s.pc[p := t.pc[p]]
    ensures |Window(t)| == |Window(s)| - (if InWindow(s.pc[p]) then 1 else 0) + (if InWindow(t.pc[p]) then 1 else 0)
    ensures |Posting(t)| == |Posting(s)| - (if s.pc[p].WakePost? then 1 else 0) + (if t.pc[p].WakePost? then 1 else 0)
  {
    OneElement(Window(s), Window(t), p);
    OneElement(Posting(s), Posting(t), p);
  }

  lemma StepKeepsCount(s: State, t: State, p: Pid)
    requires CountInv(s) && p in s.pc && Step(s, t, p)
    ensures CountInv(t) && t.pc.Keys == s.pc.Keys
  {
    StepMovesOne(s, t, p);
    WindowStep(s, t, p);
    hide Window, Posting;
    assert p in s.pc.Keys;
    Subset(Window(s), s.pc.Keys) by {
      assert Window(s) <= s.pc.Keys;
    }
  }

  lemma StepKeepsWake(s: State, t: State, p: Pid)
    requires LockInv(s) && WakeInv(s) && p in s.pc && Step(s, t, p)
    ensures WakeInv(t)
  {
    if t.lock == 0 && t.wait > 0 && t.sem == 0 {
      if Active(t.pc[p]) {
      } else {
        var q :| q in s.pc && Active(s.pc[q]);
        assert q in t.pc && Active(t.pc[q]);
      }
    }
  }

  lemma StepInv(s: State, t: State, p: Pid)
    requires Inv(s) && p in s.pc && Step(s, t, p)
    ensures Inv(t) && t.pc.Keys == s.pc.Keys
  {
    StepKeepsLock(s, t, p);
    StepKeepsCount(s, t, p);
    StepKeepsWake(s, t, p);
  }

  /** A run: states[i + 1] comes from states[i] by a step of process who[i]. */
  ghost predicate Run(states: seq<State>, who: seq<Pid>) {
    && |states| == |who| + 1
    && Init(states[0])
    && forall i :: 0 <= i < |who| ==> who[i] in states[i].pc && Step(states[i], states[i + 1], who[i])
  }

  lemma {:induction false} RunInv(states: seq<State>, who: seq<Pid>, n: nat)
    requires Run(states, who) && n < |states|
    ensures Inv(states[n]) && states[n].pc.Keys == states[0].pc.Keys
  {
    if n == 0 {
      InitInv(states[0]);
    } else {
      RunInv(states, who, n - 1);
      StepInv(states[n - 1], states[n], who[n - 1]);
    }
  }

  /** At most one process is between a successful lock or trylock and its unlock. */
  lemma MutualExclusion(states: seq<State>, who: seq<Pid>, n: nat, p: Pid, q: Pid)
    requires Run(states, who) && n < |states|
    requires p in states[n].pc && q in states[n].pc && Holds(states[n].pc[p]) && Holds(states[n].pc[q])
    ensures p == q
  {
    RunInv(states, who, n);
  }

  /** *wait plus the semaphore plus posts in flight counts the processes that announced
      themselves. *wait may turn negative, but its size never exceeds the number of
      processes, so reading the unsigned word as signed is exact. */
  lemma WaitersAreCounted(states: seq<State>, who: seq<Pid>, n: nat)
    requires Run(states, who) && n < |states|
    ensures var s := states[n]; s.wait + s.sem + |Posting(s)| == |Window(s)|
    ensures -|states[0].pc.Keys| <= states[n].wait <= |states[0].pc.Keys|
  {
    RunInv(states, who, n);
    Subset(Window(states[n]), states[n].pc.Keys);
  }

  lemma {:induction false} Subset(a: set<Pid>, b: set<Pid>)
    requires a <= b
    ensures |a| <= |b|
  {
    if a != {} {
      var x :| x in a;
      Subset(a - {x}, b - {x});
    }
  }

  /** No lost wake-up: nobody sleeps while the lock is free, no token is left and no process
      is active in lock or wakeup. */
  lemma NoLostWakeup(states: seq<State>, who: seq<Pid>, n: nat, p: Pid)
    requires Run(states, who) && n < |states|
    requires var s := states[n]; p in s.pc && s.pc[p].Sleep? && s.lock == 0 && s.sem == 0
    ensures exists q :: q in states[n].pc && Active(states[n].pc[q])
  {
    RunInv(states, who, n);
    var s := states[n];
    if Posting(s) != {} {
      var q :| q in Posting(s);
      assert Active(s.pc[q]);
    } else {
      assert p in Window(s);
    }
  }

  // What a process gets done.

  lemma {:induction false} StaysPut(states: seq<State>, who: seq<Pid>, i: nat, j: nat, p: Pid)
    requires Run(states, who) && i <= j < |states| && p in states[i].pc
    requires forall k | i <= k < j :: who[k] != p
    ensures p in states[j].pc && states[j].pc[p] == states[i].pc[p]
  {
    if i < j {
      StaysPut(states, who, i, j - 1, p);
      StepMovesOne(states[j - 1], states[j], who[j - 1]);
    }
  }

  /** A trylock whose two steps are those from i and from j gets the lock exactly if it is free at both; when nobody
      else moves in between, exactly if it is free. */
  lemma TryLockTakes(states: seq<State>, who: seq<Pid>, i: nat, j: nat, p: Pid)
    requires Run(states, who) && i < j < |who| && who[i] == p && who[j] == p && states[i].pc[p].TryLoad?
    requires forall k | i < k < j :: who[k] != p
    ensures states[i].lock != 0 ==> states[i + 1].pc[p].Idle? && states[i + 1].lock == states[i].lock
    ensures states[i].lock == 0 && states[j].lock == 0 ==> states[j + 1].pc[p].Held? && states[j + 1].lock == p
    ensures states[i].lock == 0 && states[j].lock != 0 ==>
      i + 1 < j && states[j + 1].pc[p].Idle? && states[j + 1].lock == states[j].lock
  {
    StaysPut(states, who, i + 1, j, p);
  }

  /** Steps that go on from a state. */
  ghost predicate Path(path: seq<State>, turns: seq<Pid>) {
    && |path| == |turns| + 1
    && forall i :: 0 <= i < |turns| ==> turns[i] in path[i].pc && Step(path[i], path[i + 1], turns[i])
  }

  predicate Entering(s: State, q: Pid)
    requires q in s.pc
  {
    var c := s.pc[q];
    c.LockLoad? || c.LockCas? || c.WaitAdd? || c.RetestLoad? || c.RetestCas? || (c.Sleep? && s.sem > 0)
  }

  predicate Waking(s: State, q: Pid)
    requires q in s.pc
  {
    s.pc[q].WakePost? || ((s.pc[q].WakeLoad? || s.pc[q].WakeCas?) && s.wait > 0)
  }

  /** The step that a process takes when the lock is free. */
  function Next(s: State, q: Pid): State
    requires q in s.pc && (Entering(s, q) || Waking(s, q))
  {
    match s.pc[q]
    case LockLoad => s.(pc := s.pc[q := LockCas])
    case LockCas => s.(lock := q, pc := s.pc[q := Held])
    case WaitAdd => s.(wait := s.wait + 1, pc := s.pc[q := RetestLoad])
    case RetestLoad => s.(pc := s.pc[q := RetestCas])
    case RetestCas => s.(lock := q, pc := s.pc[q := WaitSub])
    case Sleep => s.(sem := s.sem - 1, pc := s.pc[q := LockLoad])
    case WakeLoad => s.(pc := s.pc[q := WakeCas(s.wait)])
    case WakeCas(w) =>
      if s.wait == w then s.(wait := w - 1, pc := s.pc[q := WakePost]) else s.(pc := s.pc[q := WakeLoad])
    case WakePost => s.(sem := s.sem + 1, pc := s.pc[q := Idle])
  }

  lemma NextIsStep(s: State, q: Pid)
    requires s.lock == 0 && q in s.pc && (Entering(s, q) || Waking(s, q))
    ensures Step(s, Next(s, q), q)
  {
  }

  function StepsLeft(s: State, q: Pid): nat
    requires q in s.pc
  {
    match s.pc[q]
    case Sleep => 3
    case LockLoad => 2
    case WaitAdd => 3
    case RetestLoad => 2
    case WakeCas(w) => if s.wait == w then 2 else 4
    case WakeLoad => 3
    case _ => 1
  }

  lemma Prefixed(s: State, q: Pid, path: seq<State>, turns: seq<Pid>)
    requires s.lock == 0 && q in s.pc && (Entering(s, q) || Waking(s, q)) && Path(path, turns) && path[0] == Next(s, q)
    ensures Path([s] + path, [q] + turns)
  {
    NextIsStep(s, q);
    assert ([s] + path)[1] == path[0];
    forall i | 0 < i < |turns| + 1
      ensures ([q] + turns)[i] in ([s] + path)[i].pc && Step(([s] + path)[i], ([s] + path)[i + 1], ([q] + turns)[i])
    {
      assert turns[i - 1] in path[i - 1].pc && Step(path[i - 1], path[i], turns[i - 1]);
    }
  }

  /** A process that enters a free lock takes it by its own steps alone. */
  lemma {:induction false} Takes(s: State, q: Pid) returns (path: seq<State>, turns: seq<Pid>)
    requires s.lock == 0 && q in s.pc && Entering(s, q)
    ensures Path(path, turns) && path[0] == s && path[|turns|].lock == q
    ensures |turns| == StepsLeft(s, q) && forall i | 0 <= i < |turns| :: turns[i] == q
    decreases StepsLeft(s, q)
  {
    var t := Next(s, q);
    if t.lock == 0 {
      path, turns := Takes(t, q);
    } else {
      path, turns := [t], [];
    }
    Prefixed(s, q, path, turns);
    path, turns := [s] + path, [q] + turns;
  }

  /** A process that wakes posts by its own steps alone. */
  lemma {:induction false} Posts(s: State, q: Pid) returns (path: seq<State>, turns: seq<Pid>)
    requires s.lock == 0 && q in s.pc && Waking(s, q)
    ensures Path(path, turns) && path[0] == s && |turns| == StepsLeft(s, q)
    ensures var t := path[|turns|];
      t.lock == 0 && t.sem == s.sem + 1 && t.pc == s.pc[q := Idle]
    decreases StepsLeft(s, q)
  {
    var t := Next(s, q);
    if s.pc[q].WakePost? {
      path, turns := [t], [];
    } else {
      path, turns := Posts(t, q);
      assert s.pc[q := t.pc[q]][q := Idle] == s.pc[q := Idle];
    }
    Prefixed(s, q, path, turns);
    path, turns := [s] + path, [q] + turns;
  }

  lemma Joined(a: seq<State>, x: seq<Pid>, b: seq<State>, y: seq<Pid>)
    requires Path(a, x) && Path(b, y) && a[|x|] == b[0]
    ensures Path(a[..|x|] + b, x + y)
  {
    var path, turns := a[..|x|] + b, x + y;
    forall i | 0 <= i < |turns|
      ensures turns[i] in path[i].pc && Step(path[i], path[i + 1], turns[i])
    {
      if i < |x| {
        assert path[i] == a[i] && path[i + 1] == a[i + 1];
        assert x[i] in a[i].pc && Step(a[i], a[i + 1], x[i]);
      } else {
        assert path[i] == b[i - |x|] && path[i + 1] == b[i - |x| + 1];
        assert y[i - |x|] in b[i - |x|].pc && Step(b[i - |x|], b[i - |x| + 1], y[i - |x|]);
      }
    }
  }

  /** No deadlock: whenever somebody sleeps at a free lock, at most seven more steps lead to the lock being taken. */
  lemma SleeperIsNoDeadlock(states: seq<State>, who: seq<Pid>, n: nat, p: Pid)
    returns (path: seq<State>, turns: seq<Pid>)
    requires Run(states, who) && n < |states|
    requires var s := states[n]; p in s.pc && s.pc[p].Sleep? && s.lock == 0
    ensures Path(path, turns) && path[0] == states[n] && |turns| <= 7 && path[|turns|].lock != 0
  {
    hide Step, Path, Run;
    var s := states[n];
    RunInv(states, who, n);
    if s.sem > 0 {
      path, turns := Takes(s, p);
    } else {
      var q := Helper(s, p);
      if Entering(s, q) {
        path, turns := Takes(s, q);
      } else {
        var a, x := Posts(s, q);
        var b, y := Takes(a[|x|], p);
        Joined(a, x, b, y);
        path, turns := a[..|x|] + b, x + y;
        assert path[|turns|] == b[|y|];
      }
    }
  }

  lemma Helper(s: State, p: Pid) returns (q: Pid)
    requires Inv(s) && p in s.pc && s.pc[p].Sleep? && s.lock == 0 && s.sem == 0
    ensures q in s.pc && q != p && (Entering(s, q) || Waking(s, q))
  {
    if x :| x in Posting(s) {
      q := x;
    } else {
      assert p in Window(s);
      q :| q in s.pc && Active(s.pc[q]);
    }
  }
}
