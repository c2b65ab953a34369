/** The protocol of core/threadpool.hpp as a state machine: workers in thread_routine, callers of
    tpool_add_work and one tpool_destroy, interleaved in every possible way. A step is one action under a
    mutex or one access to shared data outside; the routines themselves are single steps. */
module ThreadPool {
  datatype Pc =
    // thread_routine
    | Enter                 // about to lock the queue
    | Test                  // holds the lock, about to evaluate the loop condition
    | Wait                  // holds the lock, found no job and no shutdown, about to wait
    | Asleep                // in pthread_cond_wait, the lock released
    | Woken                 // woken, about to lock again
    | Leave                 // holds the lock, out of the loop, about to read shutdown
    | Quit                  // holds the lock, about to unlock and exit
    | Take                  // holds the lock, about to take the head of the queue
    | Crashed               // took the head of an empty queue
    | Taken(node: nat, claim: nat)  // holds the lock, with a node: the claim-th job claimed
    | Run(node: nat, claim: nat)    // about to run the routine
    | Return(node: nat)     // about to give the node back to the free list
    | Exited
    // tpool_add_work
    | Idle                  // not in a call
    | Ready(node: nat)      // has a filled node, about to lock the queue
    | Append(node: nat)     // holds the lock, about to link the node
    | Signal                // holds the lock, about to signal
    | Unlock                // holds the lock

  datatype DestroyPc = Before | Flagged | Broadcast | Release | Join | Drain | Done

  datatype Owner = Free | By(t: nat) | Destroyer

  /** Nodes are numbers and jobs[n] is what node n holds; added, claimed and dropped record the jobs in the
      order in which they are queued, taken and thrown away, and ran what each claim ran. */
  datatype State = State(pcs: seq<Pc>, destroy: DestroyPc, lock: Owner, shutdown: bool,
                         queue: seq<nat>, free: seq<nat>, jobs: seq<int>,
                         added: seq<int>, claimed: seq<int>, dropped: seq<int>, ran: map<nat, int>)

  /** Go: thread t takes its next step, and if it signals a sleeping thread, it is w. */
  datatype Event = Go(t: nat, w: nat) | Call(t: nat, job: int) | Spurious(t: nat) | Destroy

  predicate IsWorker(pc: Pc) {
    !(pc.Idle? || pc.Ready? || pc.Append? || pc.Signal? || pc.Unlock?)
  }

  predicate Holds(pc: Pc) {
    pc.Test? || pc.Wait? || pc.Leave? || pc.Quit? || pc.Take? || pc.Crashed? || pc.Taken? || pc.Append? || pc.Signal? || pc.Unlock?
  }

  predicate DestroyerHolds(d: DestroyPc) {
    d == Broadcast || d == Release
  }

  predicate SomeAsleep(s: State) {
    exists t :: 0 <= t < |s.pcs| && s.pcs[t] == Asleep
  }

  predicate WorkersExited(s: State) {
    forall t :: 0 <= t < |s.pcs| && IsWorker(s.pcs[t]) ==> s.pcs[t] == Exited
  }

  function WakeAll(pcs: seq<Pc>): seq<Pc> {
    seq(|pcs|, i requires 0 <= i < |pcs| => if pcs[i] == Asleep then Woken else pcs[i])
  }

  // ---------------------------------------------------------------- steps

  predicate CanGo(s: State, t: nat, w: nat) {
    t < |s.pcs| &&
    match s.pcs[t]
    case Enter => s.lock == Free
    case Woken => s.lock == Free
    case Ready(_) => s.lock == Free
    case Signal => SomeAsleep(s) ==> w < |s.pcs| && s.pcs[w] == Asleep
    case Asleep => false
    case Exited => false
    case Crashed => false
    case Idle => false
    case _ => true
  }

  predicate CanDestroy(s: State) {
    match s.destroy
    case Flagged => s.lock == Free
    case Join => WorkersExited(s)
    case Done => false
    case _ => true
  }

  predicate Enabled(s: State, e: Event) {
    match e
    case Go(t, w) => CanGo(s, t, w)
    case Call(t, _) => t < |s.pcs| && s.pcs[t] == Idle
    case Spurious(t) => t < |s.pcs| && s.pcs[t] == Asleep
    case Destroy => CanDestroy(s)
  }

  function Move(s: State, t: nat, pc: Pc): State
    requires t < |s.pcs|
  {
    s.(pcs := s.pcs[t := pc])
  }

  function Job(s: State, n: nat): int {
    if n < |s.jobs| then s.jobs[n] else 0
  }

  function AfterGo(s: State, t: nat, w: nat): State
    requires CanGo(s, t, w)
  {
    match s.pcs[t]
    case Enter => Move(s, t, Test).(lock := By(t))
    case Woken => Move(s, t, Test).(lock := By(t))
    case Test => Move(s, t, if s.queue == [] && !s.shutdown then Wait else Leave)
    case Wait => Move(s, t, Asleep).(lock := Free)
    case Leave => Move(s, t, if s.shutdown then Quit else Take)
    case Quit => Move(s, t, Exited).(lock := Free)
    case Take =>
      if s.queue == [] then Move(s, t, Crashed)
      else Move(s, t, Taken(s.queue[0], |s.claimed|)).(queue := s.queue[1..], claimed := s.claimed + [Job(s, s.queue[0])])
    case Taken(n, k) => Move(s, t, Run(n, k)).(lock := Free)
    case Run(n, k) => Move(s, t, Return(n)).(ran := s.ran[k := Job(s, n)])
    case Return(n) => Move(s, t, Enter).(free := [n] + s.free)
    case Ready(n) => Move(s, t, Append(n)).(lock := By(t))
    case Append(n) => Move(s, t, Signal).(queue := s.queue + [n], added := s.added + [Job(s, n)])
    case Signal =>
      if SomeAsleep(s) then Move(Move(s, w, Woken), t, Unlock) else Move(s, t, Unlock)
    case Unlock => Move(s, t, Idle).(lock := Free)
    case _ => s
  }

  /** tpl.get and the filling of the node: one from the free list, or a new one. */
  function AfterCall(s: State, t: nat, job: int): State
    requires t < |s.pcs|
  {
    if s.free != [] && s.free[0] < |s.jobs| then
      Move(s, t, Ready(s.free[0])).(free := s.free[1..], jobs := s.jobs[s.free[0] := job])
    else
      Move(s, t, Ready(|s.jobs|)).(jobs := s.jobs + [job])
  }

  function AfterDestroy(s: State): State {
    match s.destroy
    case Before => s.(shutdown := true, destroy := Flagged)
    case Flagged => s.(lock := Destroyer, destroy := Broadcast)
    case Broadcast => s.(pcs := WakeAll(s.pcs), destroy := Release)
    case Release => s.(lock := Free, destroy := Join)
    case Join => s.(destroy := Drain)
    case Drain =>
      if s.queue == [] then s.(destroy := Done)
      else s.(queue := s.queue[1..], dropped := s.dropped + [Job(s, s.queue[0])])
    case Done => s
  }

  function After(s: State, e: Event): State
    requires Enabled(s, e)
  {
    match e
    case Go(t, w) => AfterGo(s, t, w)
    case Call(t, job) => AfterCall(s, t, job)
    case Spurious(t) => Move(s, t, Woken)
    case Destroy => AfterDestroy(s)
  }

  function Init(workers: nat, callers: nat): State {
    State(seq(workers, i => Enter) + seq(callers, i => Idle), Before, Free, false, [], [], [], [], [], [], map[])
  }

  /** A run: each event is possible when it happens. */
  predicate Legal(s: State, es: seq<Event>)
    decreases |es|
  {
    es == [] || (Enabled(s, es[0]) && Legal(After(s, es[0]), es[1..]))
  }

  function End(s: State, es: seq<Event>): State
    requires Legal(s, es)
    decreases |es|
  {
    if es == [] then s else End(After(s, es[0]), es[1..])
  }

  // ---------------------------------------------------------------- mutual exclusion

  /** The lock is held by the thread whose next step needs it, and by no other. */
  ghost predicate Exclusive(pcs: seq<Pc>, lock: Owner, destroy: DestroyPc) {
    && (forall t: nat :: t < |pcs| ==> (Holds(pcs[t]) <==> lock == By(t)))
    && (lock.By? ==> lock.t < |pcs|)
    && (DestroyerHolds(destroy) <==> lock == Destroyer)
  }

  lemma {:induction false} ExclusiveMove(pcs: seq<Pc>, lock: Owner, destroy: DestroyPc, t: nat, pc: Pc, lock': Owner)
    requires Exclusive(pcs, lock, destroy) && t < |pcs|
    requires Holds(pc) <==> lock' == By(t)
    requires lock' == lock || (lock == Free && lock' == By(t)) || (lock == By(t) && lock' == Free)
    ensures Exclusive(pcs[t := pc], lock', destroy)
  {
  }

  /** A step by a thread other than a signal changes its own place only. */
  lemma {:induction false} OnlyItself(s: State, t: nat, w: nat)
    requires CanGo(s, t, w) && s.pcs[t] != Signal
    ensures AfterGo(s, t, w).pcs == s.pcs[t := AfterGo(s, t, w).pcs[t]]
    ensures AfterGo(s, t, w).destroy == s.destroy && AfterGo(s, t, w).shutdown == s.shutdown
  {
  }

  lemma {:induction false} ExclusiveGo(s: State, t: nat, w: nat)
    requires Exclusive(s.pcs, s.lock, s.destroy) && CanGo(s, t, w)
    ensures Exclusive(AfterGo(s, t, w).pcs, AfterGo(s, t, w).lock, AfterGo(s, t, w).destroy)
  {
    assert Holds(s.pcs[t]) <==> s.lock == By(t);
    var s' := AfterGo(s, t, w);
    if s.pcs[t] == Signal {
      if SomeAsleep(s) {
        assert Holds(s.pcs[w]) <==> s.lock == By(w);
        ExclusiveMove(s.pcs, s.lock, s.destroy, w, Woken, s.lock);
        ExclusiveMove(s.pcs[w := Woken], s.lock, s.destroy, t, Unlock, s.lock);
      } else {
        ExclusiveMove(s.pcs, s.lock, s.destroy, t, Unlock, s.lock);
      }
    } else {
      OnlyItself(s, t, w);
      ExclusiveMove(s.pcs, s.lock, s.destroy, t, s'.pcs[t], s'.lock);
    }
  }

  lemma {:induction false} ExclusiveStep(s: State, e: Event)
    requires Exclusive(s.pcs, s.lock, s.destroy) && Enabled(s, e)
    ensures Exclusive(After(s, e).pcs, After(s, e).lock, After(s, e).destroy)
  {
    match e
    case Go(t, w) => ExclusiveGo(s, t, w);
    case Call(t, job) =>
      assert Holds(s.pcs[t]) <==> s.lock == By(t);
      ExclusiveMove(s.pcs, s.lock, s.destroy, t, After(s, e).pcs[t], s.lock);
    case Spurious(t) =>
      assert Holds(s.pcs[t]) <==> s.lock == By(t);
      ExclusiveMove(s.pcs, s.lock, s.destroy, t, Woken, s.lock);
    case Destroy =>
  }

  // ---------------------------------------------------------------- what a thread has found

  /** What the place of a thread says of the queue and of shutdown. */
  predicate Ok(pc: Pc, empty: bool, shutdown: bool) {
    && pc != Crashed
    && (pc == Wait ==> empty)
    && (pc == Take ==> !empty)
    && (pc == Leave ==> !empty || shutdown)
    && (pc == Quit || pc == Exited ==> shutdown)
  }

  ghost predicate Calm(pcs: seq<Pc>, empty: bool, shutdown: bool) {
    forall t: nat :: t < |pcs| ==> Ok(pcs[t], empty, shutdown)
  }

  /** The queue may change under the lock: no other thread is where it matters. */
  lemma {:induction false} CalmHolder(pcs: seq<Pc>, lock: Owner, destroy: DestroyPc, empty: bool, shutdown: bool,
                                      t: nat, pc: Pc, empty': bool)
    requires Exclusive(pcs, lock, destroy) && Calm(pcs, empty, shutdown) && t < |pcs|
    requires empty' == empty || lock == By(t)
    requires Ok(pc, empty', shutdown)
    ensures Calm(pcs[t := pc], empty', shutdown)
  {
    var pcs' := pcs[t := pc];
    forall u: nat | u < |pcs| ensures Ok(pcs'[u], empty', shutdown) {
      assert Ok(pcs[u], empty, shutdown) && (Holds(pcs[u]) <==> lock == By(u));
    }
  }

  lemma {:induction false} CalmGo(s: State, t: nat, w: nat)
    requires Exclusive(s.pcs, s.lock, s.destroy) && Calm(s.pcs, s.queue == [], s.shutdown) && CanGo(s, t, w)
    ensures Calm(AfterGo(s, t, w).pcs, AfterGo(s, t, w).queue == [], s.shutdown)
  {
    assert Ok(s.pcs[t], s.queue == [], s.shutdown);
    assert Holds(s.pcs[t]) <==> s.lock == By(t);
    var s' := AfterGo(s, t, w);
    if s.pcs[t] == Signal {
      if SomeAsleep(s) {
        assert Holds(s.pcs[w]) <==> s.lock == By(w);
        CalmHolder(s.pcs, s.lock, s.destroy, s.queue == [], s.shutdown, w, Woken, s.queue == []);
        ExclusiveMove(s.pcs, s.lock, s.destroy, w, Woken, s.lock);
        CalmHolder(s.pcs[w := Woken], s.lock, s.destroy, s.queue == [], s.shutdown, t, Unlock, s.queue == []);
      } else {
        CalmHolder(s.pcs, s.lock, s.destroy, s.queue == [], s.shutdown, t, Unlock, s.queue == []);
      }
    } else {
      OnlyItself(s, t, w);
      CalmHolder(s.pcs, s.lock, s.destroy, s.queue == [], s.shutdown, t, s'.pcs[t], s'.queue == []);
    }
  }

  // ---------------------------------------------------------------- shutdown

  ghost predicate NobodyWaits(pcs: seq<Pc>) {
    forall t: nat :: t < |pcs| ==> pcs[t] != Asleep && pcs[t] != Wait
  }

  /** How far tpool_destroy is, and what that says of the workers. */
  ghost predicate Staged(s: State) {
    && (s.shutdown <==> s.destroy != Before)
    && (s.destroy == Release || s.destroy == Join || s.destroy == Drain || s.destroy == Done ==> NobodyWaits(s.pcs))
    && (s.destroy == Drain || s.destroy == Done ==> WorkersExited(s))
  }

  lemma {:induction false} StagedGo(s: State, t: nat, w: nat)
    requires Staged(s) && CanGo(s, t, w)
    ensures Staged(AfterGo(s, t, w))
  {
    var s' := AfterGo(s, t, w);
    if s.pcs[t] == Signal {
    } else {
      OnlyItself(s, t, w);
    }
  }

  lemma {:induction false} StagedStep(s: State, e: Event)
    requires Exclusive(s.pcs, s.lock, s.destroy) && Staged(s) && Enabled(s, e)
    ensures Staged(After(s, e))
  {
    match e
    case Go(t, w) => StagedGo(s, t, w);
    case Call(t, job) =>
    case Spurious(t) =>
    case Destroy =>
      if s.destroy == Broadcast {
        forall t: nat | t < |s.pcs| ensures WakeAll(s.pcs)[t] != Asleep && WakeAll(s.pcs)[t] != Wait {
          assert Holds(s.pcs[t]) <==> s.lock == By(t);
        }
      }
  }

  lemma {:induction false} CalmDestroy(s: State)
    requires Calm(s.pcs, s.queue == [], s.shutdown) && Staged(s) && CanDestroy(s)
    ensures Calm(AfterDestroy(s).pcs, AfterDestroy(s).queue == [], AfterDestroy(s).shutdown)
  {
    var s' := AfterDestroy(s);
    forall t: nat | t < |s.pcs| ensures Ok(s'.pcs[t], s'.queue == [], s'.shutdown) {
      assert Ok(s.pcs[t], s.queue == [], s.shutdown);
    }
  }

  lemma {:induction false} CalmStep(s: State, e: Event)
    requires Exclusive(s.pcs, s.lock, s.destroy) && Calm(s.pcs, s.queue == [], s.shutdown) && Staged(s) && Enabled(s, e)
    ensures Calm(After(s, e).pcs, After(s, e).queue == [], After(s, e).shutdown)
  {
    var s' := After(s, e);
    match e
    case Go(t, w) => CalmGo(s, t, w);
    case Call(t, job) =>
      CalmHolder(s.pcs, s.lock, s.destroy, s.queue == [], s.shutdown, t, s'.pcs[t], s.queue == []);
    case Spurious(t) =>
      CalmHolder(s.pcs, s.lock, s.destroy, s.queue == [], s.shutdown, t, Woken, s.queue == []);
    case Destroy => CalmDestroy(s);
  }

  // ---------------------------------------------------------------- no lost wake-up

  predicate AllAsleep(pcs: seq<Pc>) {
    forall t :: 0 <= t < |pcs| && IsWorker(pcs[t]) ==> pcs[t] == Asleep
  }

  predicate SignalDue(pcs: seq<Pc>) {
    exists t :: 0 <= t < |pcs| && pcs[t] == Signal
  }

  predicate HasWorker(pcs: seq<Pc>) {
    exists t :: 0 <= t < |pcs| && IsWorker(pcs[t])
  }

  /** Jobs never wait while every worker sleeps, unless the caller who queued one is about to signal. */
  ghost predicate Lively(s: State) {
    HasWorker(s.pcs) && (s.queue != [] && AllAsleep(s.pcs) ==> SignalDue(s.pcs))
  }

  lemma {:induction false} SameRole(s: State, t: nat, w: nat)
    requires CanGo(s, t, w)
    ensures |AfterGo(s, t, w).pcs| == |s.pcs| && IsWorker(AfterGo(s, t, w).pcs[t]) == IsWorker(s.pcs[t])
  {
  }

  /** A step by a thread that neither queues nor signals. */
  lemma {:induction false} LivelyOther(pcs: seq<Pc>, t: nat, pc: Pc, waiting: bool, waiting': bool)
    requires HasWorker(pcs) && (waiting && AllAsleep(pcs) ==> SignalDue(pcs))
    requires t < |pcs| && IsWorker(pc) == IsWorker(pcs[t]) && pcs[t] != Signal
    requires waiting' ==> waiting && pc != Asleep
    ensures HasWorker(pcs[t := pc]) && (waiting' && AllAsleep(pcs[t := pc]) ==> SignalDue(pcs[t := pc]))
  {
    var pcs' := pcs[t := pc];
    var k :| 0 <= k < |pcs| && IsWorker(pcs[k]);
    assert IsWorker(pcs'[k]);
    if waiting' && AllAsleep(pcs') {
      forall u | 0 <= u < |pcs| && IsWorker(pcs[u]) ensures pcs[u] == Asleep {
        assert IsWorker(pcs'[u]);
      }
      var j :| 0 <= j < |pcs| && pcs[j] == Signal;
      assert pcs'[j] == Signal;
    }
  }

  lemma {:induction false} LivelySignal(s: State, t: nat, w: nat)
    requires Lively(s) && CanGo(s, t, w) && s.pcs[t] == Signal
    ensures Lively(AfterGo(s, t, w))
  {
    var s' := AfterGo(s, t, w);
    var k :| 0 <= k < |s.pcs| && IsWorker(s.pcs[k]);
    assert IsWorker(s'.pcs[k]);
    if SomeAsleep(s) {
      assert s'.pcs[w] == Woken;
    } else {
      assert s'.pcs[k] == s.pcs[k] != Asleep;
    }
  }

  lemma {:induction false} LivelyGo(s: State, t: nat, w: nat)
    requires Calm(s.pcs, s.queue == [], s.shutdown) && Lively(s) && CanGo(s, t, w)
    ensures Lively(AfterGo(s, t, w))
  {
    var s' := AfterGo(s, t, w);
    if s.pcs[t] == Signal {
      LivelySignal(s, t, w);
    } else {
      assert Ok(s.pcs[t], s.queue == [], s.shutdown);
      SameRole(s, t, w);
      OnlyItself(s, t, w);
      if s.pcs[t].Append? {
        LivelyOther(s.pcs, t, s'.pcs[t], s.queue != [], false);
        assert s'.pcs[t] == Signal;
      } else {
        LivelyOther(s.pcs, t, s'.pcs[t], s.queue != [], s'.queue != []);
      }
    }
  }

  lemma {:induction false} LivelyStep(s: State, e: Event)
    requires Calm(s.pcs, s.queue == [], s.shutdown) && Staged(s) && Lively(s) && Enabled(s, e)
    ensures Lively(After(s, e))
  {
    var s' := After(s, e);
    match e
    case Go(t, w) => LivelyGo(s, t, w);
    case Call(t, job) => LivelyOther(s.pcs, t, s'.pcs[t], s.queue != [], s.queue != []);
    case Spurious(t) => LivelyOther(s.pcs, t, Woken, s.queue != [], s.queue != []);
    case Destroy =>
      var k :| 0 <= k < |s.pcs| && IsWorker(s.pcs[k]);
      assert IsWorker(s'.pcs[k]);
      if s.destroy == Broadcast {
        assert s'.pcs[k] != Asleep;
      }
  }

  // ---------------------------------------------------------------- nodes

  predicate HasNode(pc: Pc) {
    pc.Taken? || pc.Run? || pc.Return? || pc.Ready? || pc.Append?
  }

  function Held(pc: Pc): nat
    requires HasNode(pc)
  {
    pc.node
  }

  ghost predicate Distinct(s: seq<nat>) {
    forall i, j :: 0 <= i < j < |s| ==> s[i] != s[j]
  }

  /** No node is in two of the queue, the free list and the hands of a thread, or in one of them twice. */
  ghost predicate Owned(pcs: seq<Pc>, queue: seq<nat>, free: seq<nat>, made: nat) {
    && Distinct(queue) && Distinct(free)
    && (forall n :: n in queue ==> n < made && n !in free)
    && (forall n :: n in free ==> n < made)
    && (forall t :: 0 <= t < |pcs| && HasNode(pcs[t]) ==> Held(pcs[t]) < made && Held(pcs[t]) !in queue && Held(pcs[t]) !in free)
    && (forall t, u :: 0 <= t < u < |pcs| && HasNode(pcs[t]) && HasNode(pcs[u]) ==> Held(pcs[t]) != Held(pcs[u]))
  }

  /** A thread keeps what it holds, or comes to hold a node that nobody else holds. */
  lemma {:induction false} OwnedMove(pcs: seq<Pc>, queue: seq<nat>, free: seq<nat>, made: nat, t: nat, pc: Pc)
    requires Owned(pcs, queue, free, made) && t < |pcs|
    requires HasNode(pc) ==> Held(pc) < made && Held(pc) !in queue && Held(pc) !in free
    requires forall u :: 0 <= u < |pcs| && u != t && HasNode(pc) && HasNode(pcs[u]) ==> Held(pc) != Held(pcs[u])
    ensures Owned(pcs[t := pc], queue, free, made)
  {
  }

  /** A place without the node it held: the node may then go to the queue or the free list. */
  lemma {:induction false} Released(pcs: seq<Pc>, queue: seq<nat>, free: seq<nat>, made: nat, t: nat, pc: Pc, n: nat)
    requires Owned(pcs, queue, free, made) && t < |pcs| && HasNode(pcs[t]) && Held(pcs[t]) == n && !HasNode(pc)
    ensures Owned(pcs[t := pc], queue + [n], free, made) && Owned(pcs[t := pc], queue, [n] + free, made)
  {
    var pcs' := pcs[t := pc];
    forall u | 0 <= u < |pcs'| && HasNode(pcs'[u]) ensures Held(pcs'[u]) != n {
      assert u != t;
    }
    assert forall m :: m in queue + [n] ==> m in queue || m == n;
    assert forall m :: m in [n] + free ==> m in free || m == n;
    assert Owned(pcs', queue + [n], free, made);
    assert Owned(pcs', queue, [n] + free, made);
  }

  lemma {:induction false} HeadGone(pcs: seq<Pc>, queue: seq<nat>, free: seq<nat>, made: nat)
    requires Owned(pcs, queue, free, made)
    ensures queue != [] ==> Owned(pcs, queue[1..], free, made) && queue[0] !in queue[1..]
    ensures free != [] ==> Owned(pcs, queue, free[1..], made) && free[0] !in free[1..]
  {
    if queue != [] {
      assert forall m :: m in queue[1..] ==> m in queue;
    }
    if free != [] {
      assert forall m :: m in free[1..] ==> m in free;
    }
  }

  lemma {:induction false} OwnedGo(s: State, t: nat, w: nat)
    requires Owned(s.pcs, s.queue, s.free, |s.jobs|) && CanGo(s, t, w)
    ensures Owned(AfterGo(s, t, w).pcs, AfterGo(s, t, w).queue, AfterGo(s, t, w).free, |AfterGo(s, t, w).jobs|)
  {
    hide Owned;
    var s' := AfterGo(s, t, w);
    var pc := s.pcs[t];
    if pc == Signal {
      if SomeAsleep(s) {
        OwnedMove(s.pcs, s.queue, s.free, |s.jobs|, w, Woken);
        OwnedMove(s.pcs[w := Woken], s.queue, s.free, |s.jobs|, t, Unlock);
      } else {
        OwnedMove(s.pcs, s.queue, s.free, |s.jobs|, t, Unlock);
      }
    } else if pc.Append? || pc.Return? {
      Released(s.pcs, s.queue, s.free, |s.jobs|, t, s'.pcs[t], pc.node);
    } else if pc == Take && s.queue != [] {
      Claimable(s.pcs, s.queue, s.free, |s.jobs|, t, |s.claimed|);
    } else {
      OnlyItself(s, t, w);
      Kept(s.pcs, s.queue, s.free, |s.jobs|, t, s'.pcs[t]);
    }
  }

  lemma {:induction false} Kept(pcs: seq<Pc>, queue: seq<nat>, free: seq<nat>, made: nat, t: nat, pc: Pc)
    requires Owned(pcs, queue, free, made) && t < |pcs|
    requires HasNode(pc) ==> HasNode(pcs[t]) && Held(pc) == Held(pcs[t])
    ensures Owned(pcs[t := pc], queue, free, made)
  {
    OwnedMove(pcs, queue, free, made, t, pc);
  }

  lemma {:induction false} Claimable(pcs: seq<Pc>, queue: seq<nat>, free: seq<nat>, made: nat, t: nat, k: nat)
    requires Owned(pcs, queue, free, made) && t < |pcs| && queue != []
    ensures Owned(pcs[t := Taken(queue[0], k)], queue[1..], free, made)
  {
    HeadGone(pcs, queue, free, made);
    assert queue[0] in queue;
    OwnedMove(pcs, queue[1..], free, made, t, Taken(queue[0], k));
  }

  lemma {:induction false} OwnedCall(s: State, t: nat, job: int)
    requires Owned(s.pcs, s.queue, s.free, |s.jobs|) && t < |s.pcs| && s.pcs[t] == Idle
    ensures Owned(AfterCall(s, t, job).pcs, AfterCall(s, t, job).queue, AfterCall(s, t, job).free, |AfterCall(s, t, job).jobs|)
  {
    HeadGone(s.pcs, s.queue, s.free, |s.jobs|);
    if s.free != [] {
      assert s.free[0] in s.free;
      OwnedMove(s.pcs, s.queue, s.free[1..], |s.jobs|, t, Ready(s.free[0]));
    } else {
      assert Owned(s.pcs, s.queue, s.free, |s.jobs| + 1);
      OwnedMove(s.pcs, s.queue, s.free, |s.jobs| + 1, t, Ready(|s.jobs|));
    }
  }

  lemma {:induction false} OwnedStep(s: State, e: Event)
    requires Owned(s.pcs, s.queue, s.free, |s.jobs|) && Enabled(s, e)
    ensures Owned(After(s, e).pcs, After(s, e).queue, After(s, e).free, |After(s, e).jobs|)
  {
    hide Owned;
    match e
    case Go(t, w) => OwnedGo(s, t, w);
    case Call(t, job) => OwnedCall(s, t, job);
    case Spurious(t) => Kept(s.pcs, s.queue, s.free, |s.jobs|, t, Woken);
    case Destroy =>
      if s.destroy == Drain {
        HeadGone(s.pcs, s.queue, s.free, |s.jobs|);
      } else if s.destroy == Broadcast {
        WakeOwned(s.pcs, s.queue, s.free, |s.jobs|);
      }
  }

  lemma {:induction false} WakeOwned(pcs: seq<Pc>, queue: seq<nat>, free: seq<nat>, made: nat)
    requires Owned(pcs, queue, free, made)
    ensures Owned(WakeAll(pcs), queue, free, made)
  {
    var pcs' := WakeAll(pcs);
    assert forall t :: 0 <= t < |pcs| ==> HasNode(pcs'[t]) == HasNode(pcs[t]) && (HasNode(pcs[t]) ==> pcs'[t] == pcs[t]);
  }

  // ---------------------------------------------------------------- order

  function JobsOf(jobs: seq<int>, queue: seq<nat>): seq<int> {
    seq(|queue|, i requires 0 <= i < |queue| => if queue[i] < |jobs| then jobs[queue[i]] else 0)
  }

  /** What was added is what was claimed, in the same order, and then what is still there. */
  ghost predicate Fifo(s: State) {
    && s.added == s.claimed + s.dropped + JobsOf(s.jobs, s.queue)
    && (s.dropped != [] ==> s.destroy == Drain || s.destroy == Done)
  }

  lemma {:induction false} JobsOfParts(jobs: seq<int>, queue: seq<nat>, n: nat)
    ensures JobsOf(jobs, queue + [n]) == JobsOf(jobs, queue) + [if n < |jobs| then jobs[n] else 0]
    ensures queue != [] ==>
      JobsOf(jobs, queue) == [if queue[0] < |jobs| then jobs[queue[0]] else 0] + JobsOf(jobs, queue[1..])
  {
  }

  lemma {:induction false} FifoAppend(s: State, t: nat, w: nat)
    requires Fifo(s) && CanGo(s, t, w) && s.pcs[t].Append?
    ensures Fifo(AfterGo(s, t, w))
  {
    hide JobsOf;
    var n := s.pcs[t].node;
    JobsOfParts(s.jobs, s.queue, n);
    Assoc(s.claimed + s.dropped, JobsOf(s.jobs, s.queue), [Job(s, n)]);
  }

  lemma {:induction false} FifoTake(s: State, t: nat, w: nat)
    requires Fifo(s) && Staged(s) && CanGo(s, t, w) && s.pcs[t] == Take && s.queue != []
    ensures Fifo(AfterGo(s, t, w))
  {
    hide JobsOf;
    assert s.dropped == [];
    JobsOfParts(s.jobs, s.queue, 0);
    Assoc(s.claimed, [Job(s, s.queue[0])], JobsOf(s.jobs, s.queue[1..]));
    assert s.claimed + s.dropped == s.claimed;
    assert s.claimed + [Job(s, s.queue[0])] + s.dropped == s.claimed + [Job(s, s.queue[0])];
  }

  lemma {:induction false} FifoGo(s: State, t: nat, w: nat)
    requires Fifo(s) && Staged(s) && CanGo(s, t, w)
    ensures Fifo(AfterGo(s, t, w))
  {
    if s.pcs[t].Append? {
      FifoAppend(s, t, w);
    } else if s.pcs[t] == Take && s.queue != [] {
      FifoTake(s, t, w);
    } else {
      hide JobsOf;
      OnlyQueue(s, t, w);
      assert Fifo(AfterGo(s, t, w));
    }
  }

  lemma {:induction false} OnlyQueue(s: State, t: nat, w: nat)
    requires CanGo(s, t, w) && !s.pcs[t].Append? && (s.pcs[t] == Take ==> s.queue == [])
    ensures var s' := AfterGo(s, t, w); s'.queue == s.queue && s'.jobs == s.jobs && s'.destroy == s.destroy
    ensures var s' := AfterGo(s, t, w); s'.added == s.added && s'.claimed == s.claimed && s'.dropped == s.dropped
  {
  }

  lemma {:induction false} Assoc(a: seq<int>, b: seq<int>, c: seq<int>)
    ensures (a + b) + c == a + (b + c)
  {
  }

  lemma {:induction false} FifoCall(s: State, t: nat, job: int)
    requires Fifo(s) && Owned(s.pcs, s.queue, s.free, |s.jobs|) && t < |s.pcs|
    ensures Fifo(AfterCall(s, t, job))
  {
    var s' := AfterCall(s, t, job);
    assert s.free != [] ==> s.free[0] in s.free;
    assert forall i :: 0 <= i < |s.queue| ==> s.queue[i] in s.queue;
    assert JobsOf(s'.jobs, s.queue) == JobsOf(s.jobs, s.queue);
  }

  lemma {:induction false} FifoStep(s: State, e: Event)
    requires Fifo(s) && Staged(s) && Owned(s.pcs, s.queue, s.free, |s.jobs|) && Enabled(s, e)
    ensures Fifo(After(s, e))
  {
    hide JobsOf, Owned;
    match e
    case Go(t, w) => FifoGo(s, t, w);
    case Call(t, job) => FifoCall(s, t, job);
    case Spurious(t) =>
    case Destroy =>
      if s.destroy == Drain && s.queue != [] {
        JobsOfParts(s.jobs, s.queue, 0);
        Assoc(s.claimed, s.dropped, [Job(s, s.queue[0])]);
        Assoc(s.claimed + s.dropped, [Job(s, s.queue[0])], JobsOf(s.jobs, s.queue[1..]));
      }
  }

  // ---------------------------------------------------------------- what the workers run

  /** A job claimed, but not run yet. */
  predicate HasClaim(pc: Pc) {
    pc.Taken? || pc.Run?
  }

  ghost predicate SomeoneHas(pcs: seq<Pc>, k: nat) {
    exists t :: 0 <= t < |pcs| && HasClaim(pcs[t]) && pcs[t].claim == k
  }

  /** The node of a claim not run yet still holds the job that was claimed. */
  ghost predicate ClaimOk(pc: Pc, jobs: seq<int>, claimed: seq<int>, ran: map<nat, int>) {
    HasClaim(pc) ==>
      pc.claim < |claimed| && pc.node < |jobs| && jobs[pc.node] == claimed[pc.claim] && pc.claim !in ran
  }

  /** What ran is what was claimed, and every claim has been run or is in the hands of one thread. */
  ghost predicate Faithful(pcs: seq<Pc>, jobs: seq<int>, claimed: seq<int>, ran: map<nat, int>) {
    && (forall k :: k in ran ==> k < |claimed| && ran[k] == claimed[k])
    && (forall t: nat :: t < |pcs| ==> ClaimOk(pcs[t], jobs, claimed, ran))
    && (forall t, u :: 0 <= t < u < |pcs| && HasClaim(pcs[t]) && HasClaim(pcs[u]) ==> pcs[t].claim != pcs[u].claim)
    && (forall k: nat :: k < |claimed| ==> k in ran || SomeoneHas(pcs, k))
  }

  /** A step of a thread that neither claims nor runs. */
  lemma {:induction false} FaithfulMove(pcs: seq<Pc>, jobs: seq<int>, claimed: seq<int>, ran: map<nat, int>, t: nat, pc: Pc)
    requires Faithful(pcs, jobs, claimed, ran) && t < |pcs|
    requires HasClaim(pc) == HasClaim(pcs[t])
    requires HasClaim(pc) ==> pc.claim == pcs[t].claim && pc.node == pcs[t].node
    ensures Faithful(pcs[t := pc], jobs, claimed, ran)
  {
    var pcs' := pcs[t := pc];
    assert ClaimOk(pcs[t], jobs, claimed, ran);
    forall k: nat | k < |claimed| && k !in ran ensures SomeoneHas(pcs', k) {
      assert SomeoneHas(pcs, k);
      var u :| 0 <= u < |pcs| && HasClaim(pcs[u]) && pcs[u].claim == k;
      assert HasClaim(pcs'[u]) && pcs'[u].claim == k;
    }
  }

  lemma {:induction false} FaithfulTake(pcs: seq<Pc>, jobs: seq<int>, claimed: seq<int>, ran: map<nat, int>, t: nat, n: nat)
    requires Faithful(pcs, jobs, claimed, ran) && t < |pcs| && pcs[t] == Take && n < |jobs|
    ensures Faithful(pcs[t := Taken(n, |claimed|)], jobs, claimed + [jobs[n]], ran)
  {
    var pcs', claimed' := pcs[t := Taken(n, |claimed|)], claimed + [jobs[n]];
    forall u: nat | u < |pcs'| ensures ClaimOk(pcs'[u], jobs, claimed', ran) {
      assert ClaimOk(pcs[u], jobs, claimed, ran);
    }
    forall u, v | 0 <= u < v < |pcs'| && HasClaim(pcs'[u]) && HasClaim(pcs'[v]) ensures pcs'[u].claim != pcs'[v].claim {
      assert ClaimOk(pcs[u], jobs, claimed, ran) && ClaimOk(pcs[v], jobs, claimed, ran);
    }
    forall k: nat | k < |claimed'| && k !in ran ensures SomeoneHas(pcs', k) {
      if k == |claimed| {
        assert HasClaim(pcs'[t]) && pcs'[t].claim == k;
      } else {
        assert SomeoneHas(pcs, k);
        var u :| 0 <= u < |pcs| && HasClaim(pcs[u]) && pcs[u].claim == k;
        assert HasClaim(pcs'[u]) && pcs'[u].claim == k;
      }
    }
  }

  lemma {:induction false} FaithfulRun(pcs: seq<Pc>, jobs: seq<int>, claimed: seq<int>, ran: map<nat, int>, t: nat)
    requires Faithful(pcs, jobs, claimed, ran) && t < |pcs| && pcs[t].Run?
    ensures pcs[t].node < |jobs|
    ensures Faithful(pcs[t := Return(pcs[t].node)], jobs, claimed, ran[pcs[t].claim := jobs[pcs[t].node]])
  {
    assert ClaimOk(pcs[t], jobs, claimed, ran);
    var pcs', k0 := pcs[t := Return(pcs[t].node)], pcs[t].claim;
    var ran' := ran[k0 := jobs[pcs[t].node]];
    forall u: nat | u < |pcs'| ensures ClaimOk(pcs'[u], jobs, claimed, ran') {
      assert ClaimOk(pcs[u], jobs, claimed, ran);
    }
    forall k: nat | k < |claimed| && k !in ran' ensures SomeoneHas(pcs', k) {
      assert SomeoneHas(pcs, k);
      var u :| 0 <= u < |pcs| && HasClaim(pcs[u]) && pcs[u].claim == k;
      assert HasClaim(pcs'[u]) && pcs'[u].claim == k;
    }
  }

  /** A node that is filled for a new job is in nobody's hands. */
  lemma {:induction false} FaithfulCall(s: State, t: nat, job: int)
    requires Faithful(s.pcs, s.jobs, s.claimed, s.ran) && Owned(s.pcs, s.queue, s.free, |s.jobs|)
    requires t < |s.pcs| && s.pcs[t] == Idle
    ensures Faithful(AfterCall(s, t, job).pcs, AfterCall(s, t, job).jobs, s.claimed, s.ran)
  {
    var s' := AfterCall(s, t, job);
    FaithfulMove(s.pcs, s.jobs, s.claimed, s.ran, t, s'.pcs[t]);
    assert s.free != [] ==> s.free[0] in s.free;
    forall u: nat | u < |s'.pcs| ensures ClaimOk(s'.pcs[u], s'.jobs, s.claimed, s.ran) {
      assert ClaimOk(s'.pcs[u], s.jobs, s.claimed, s.ran);
      assert HasClaim(s.pcs[u]) ==> HasNode(s.pcs[u]) && Held(s.pcs[u]) == s.pcs[u].node;
    }
  }

  lemma {:induction false} OnlyPlaces(s: State, t: nat, w: nat)
    requires CanGo(s, t, w)
    ensures AfterGo(s, t, w).jobs == s.jobs
    ensures !(s.pcs[t] == Take && s.queue != []) ==> AfterGo(s, t, w).claimed == s.claimed
    ensures !s.pcs[t].Run? ==> AfterGo(s, t, w).ran == s.ran
  {
  }

  lemma {:induction false} FaithfulSignal(s: State, t: nat, w: nat)
    requires Faithful(s.pcs, s.jobs, s.claimed, s.ran) && CanGo(s, t, w) && s.pcs[t] == Signal
    ensures Faithful(AfterGo(s, t, w).pcs, s.jobs, s.claimed, s.ran)
  {
    hide Faithful;
    if SomeAsleep(s) {
      FaithfulMove(s.pcs, s.jobs, s.claimed, s.ran, w, Woken);
      FaithfulMove(s.pcs[w := Woken], s.jobs, s.claimed, s.ran, t, Unlock);
    } else {
      FaithfulMove(s.pcs, s.jobs, s.claimed, s.ran, t, Unlock);
    }
  }

  lemma {:induction false} FaithfulGo(s: State, t: nat, w: nat)
    requires Faithful(s.pcs, s.jobs, s.claimed, s.ran) && Owned(s.pcs, s.queue, s.free, |s.jobs|) && CanGo(s, t, w)
    ensures Faithful(AfterGo(s, t, w).pcs, AfterGo(s, t, w).jobs, AfterGo(s, t, w).claimed, AfterGo(s, t, w).ran)
  {
    assert s.queue != [] ==> s.queue[0] in s.queue;
    hide Faithful, Owned;
    OnlyPlaces(s, t, w);
    if s.pcs[t] == Signal {
      FaithfulSignal(s, t, w);
    } else if s.pcs[t] == Take && s.queue != [] {
      FaithfulTake(s.pcs, s.jobs, s.claimed, s.ran, t, s.queue[0]);
    } else if s.pcs[t].Run? {
      FaithfulRun(s.pcs, s.jobs, s.claimed, s.ran, t);
    } else {
      OnlyItself(s, t, w);
      FaithfulMove(s.pcs, s.jobs, s.claimed, s.ran, t, AfterGo(s, t, w).pcs[t]);
    }
  }

  lemma {:induction false} FaithfulWake(pcs: seq<Pc>, jobs: seq<int>, claimed: seq<int>, ran: map<nat, int>)
    requires Faithful(pcs, jobs, claimed, ran)
    ensures Faithful(WakeAll(pcs), jobs, claimed, ran)
  {
    var pcs' := WakeAll(pcs);
    forall u: nat | u < |pcs'| ensures ClaimOk(pcs'[u], jobs, claimed, ran) {
      assert ClaimOk(pcs[u], jobs, claimed, ran);
    }
    forall k: nat | k < |claimed| && k !in ran ensures SomeoneHas(pcs', k) {
      assert SomeoneHas(pcs, k);
      var u :| 0 <= u < |pcs| && HasClaim(pcs[u]) && pcs[u].claim == k;
      assert HasClaim(pcs'[u]) && pcs'[u].claim == k;
    }
  }

  lemma {:induction false} FaithfulStep(s: State, e: Event)
    requires Faithful(s.pcs, s.jobs, s.claimed, s.ran) && Owned(s.pcs, s.queue, s.free, |s.jobs|) && Enabled(s, e)
    ensures Faithful(After(s, e).pcs, After(s, e).jobs, After(s, e).claimed, After(s, e).ran)
  {
    hide Faithful, Owned;
    match e
    case Go(t, w) =>
      hide AfterGo;
      FaithfulGo(s, t, w);
    case Call(t, job) => FaithfulCall(s, t, job);
    case Spurious(t) => FaithfulMove(s.pcs, s.jobs, s.claimed, s.ran, t, Woken);
    case Destroy => FaithfulWake(s.pcs, s.jobs, s.claimed, s.ran);
  }

  // ---------------------------------------------------------------- every run

  ghost predicate Inv(s: State) {
    && Exclusive(s.pcs, s.lock, s.destroy)
    && Calm(s.pcs, s.queue == [], s.shutdown)
    && Staged(s)
    && Lively(s)
    && Owned(s.pcs, s.queue, s.free, |s.jobs|)
    && Fifo(s)
    && Faithful(s.pcs, s.jobs, s.claimed, s.ran)
  }

  lemma {:induction false} InvInit(workers: nat, callers: nat)
    requires workers > 0
    ensures Inv(Init(workers, callers))
  {
    var s := Init(workers, callers);
    assert IsWorker(s.pcs[0]);
  }

  lemma {:induction false} InvStep(s: State, e: Event)
    requires Inv(s) && Enabled(s, e)
    ensures Inv(After(s, e))
  {
    hide Exclusive, Calm, Staged, Lively, Owned, Fifo, Faithful, Enabled, After;
    ExclusiveStep(s, e);
    CalmStep(s, e);
    StagedStep(s, e);
    LivelyStep(s, e);
    OwnedStep(s, e);
    FifoStep(s, e);
    FaithfulStep(s, e);
  }

  /** Every state of every run, of any number of workers and callers. */
  lemma {:induction false} InvRun(s: State, es: seq<Event>)
    requires Inv(s) && Legal(s, es)
    ensures Inv(End(s, es))
    decreases |es|
  {
    hide Inv, Enabled, After;
    if es != [] {
      InvStep(s, es[0]);
      InvRun(After(s, es[0]), es[1..]);
    }
  }

  /** Jobs are claimed first in, first out: the k-th claim takes the k-th job added, so none is taken twice,
      and until the pool is destroyed what is not claimed is in the queue. */
  lemma {:induction false} ClaimsInOrder(workers: nat, callers: nat, es: seq<Event>, s: State)
    requires workers > 0 && Legal(Init(workers, callers), es) && s == End(Init(workers, callers), es)
    ensures s.claimed <= s.added
    ensures |s.added| == |s.claimed| + |s.dropped| + |s.queue|
    ensures forall i :: 0 <= i < |s.queue| ==>
      s.queue[i] < |s.jobs| && s.jobs[s.queue[i]] == s.added[|s.claimed| + |s.dropped| + i]
    ensures s.dropped != [] ==> WorkersExited(s)
  {
    InvInit(workers, callers);
    InvRun(Init(workers, callers), es);
    assert forall i :: 0 <= i < |s.queue| ==> s.queue[i] in s.queue;
  }

  /** Claim k runs the k-th job added, at most once; what is claimed but not run yet is in the hands of a
      worker, so nothing is lost between the queue and the routine. */
  lemma {:induction false} RunsInTurn(workers: nat, callers: nat, es: seq<Event>, s: State)
    requires workers > 0 && Legal(Init(workers, callers), es) && s == End(Init(workers, callers), es)
    ensures forall k :: k in s.ran ==> k < |s.added| && s.ran[k] == s.added[k]
    ensures forall k: nat :: k < |s.claimed| ==> k in s.ran || SomeoneHas(s.pcs, k)
    ensures forall k: nat :: k < |s.claimed| && SomeoneHas(s.pcs, k) ==> k !in s.ran
  {
    hide SomeoneHas;
    ClaimsInOrder(workers, callers, es, s);
    InvInit(workers, callers);
    InvRun(Init(workers, callers), es);
    forall k: nat | k < |s.claimed| && SomeoneHas(s.pcs, k) ensures k !in s.ran {
      HeldNotRun(s, k);
    }
  }

  lemma {:induction false} HeldNotRun(s: State, k: nat)
    requires Faithful(s.pcs, s.jobs, s.claimed, s.ran) && SomeoneHas(s.pcs, k)
    ensures k !in s.ran
  {
    var t :| 0 <= t < |s.pcs| && HasClaim(s.pcs[t]) && s.pcs[t].claim == k;
    assert ClaimOk(s.pcs[t], s.jobs, s.claimed, s.ran);
  }

  /** A worker that reaches for the head of the queue finds one, at most one thread is between lock and
      unlock, and no node is in two places. */
  lemma {:induction false} NoInterference(workers: nat, callers: nat, es: seq<Event>, s: State)
    requires workers > 0 && Legal(Init(workers, callers), es) && s == End(Init(workers, callers), es)
    ensures forall t :: 0 <= t < |s.pcs| ==> s.pcs[t] != Crashed && (s.pcs[t] == Take ==> s.queue != [])
    ensures forall t, u :: 0 <= t < u < |s.pcs| ==> !(Holds(s.pcs[t]) && Holds(s.pcs[u]))
    ensures Owned(s.pcs, s.queue, s.free, |s.jobs|)
  {
    InvInit(workers, callers);
    InvRun(Init(workers, callers), es);
    forall t | 0 <= t < |s.pcs| ensures Ok(s.pcs[t], s.queue == [], s.shutdown) {
    }
    forall t, u | 0 <= t < u < |s.pcs| ensures !(Holds(s.pcs[t]) && Holds(s.pcs[u])) {
      assert Holds(s.pcs[t]) <==> s.lock == By(t);
      assert Holds(s.pcs[u]) <==> s.lock == By(u);
    }
  }

  /** With jobs in the queue some worker is awake, unless a caller holds the lock and is about to signal;
      after the broadcast of a shutdown nobody sleeps. */
  lemma {:induction false} NoLostWakeup(workers: nat, callers: nat, es: seq<Event>, s: State)
    requires workers > 0 && Legal(Init(workers, callers), es) && s == End(Init(workers, callers), es)
    ensures s.queue != [] && s.lock == Free ==> exists t :: 0 <= t < |s.pcs| && IsWorker(s.pcs[t]) && s.pcs[t] != Asleep
    ensures s.queue != [] && !s.shutdown && s.lock == Free ==>
      exists t :: 0 <= t < |s.pcs| && IsWorker(s.pcs[t]) && s.pcs[t] != Asleep && s.pcs[t] != Exited
    ensures s.destroy == Release || s.destroy == Join ==> forall t :: 0 <= t < |s.pcs| ==> s.pcs[t] != Asleep
  {
    InvInit(workers, callers);
    InvRun(Init(workers, callers), es);
    if s.queue != [] && s.lock == Free {
      forall t | 0 <= t < |s.pcs| ensures s.pcs[t] != Signal && Ok(s.pcs[t], s.queue == [], s.shutdown) {
        assert Holds(s.pcs[t]) <==> s.lock == By(t);
      }
      var t :| 0 <= t < |s.pcs| && IsWorker(s.pcs[t]) && s.pcs[t] != Asleep;
      assert Ok(s.pcs[t], s.queue == [], s.shutdown);
    }
  }

  // ---------------------------------------------------------------- progress

  /** Something is left to do: a job in the queue, a call in progress, or a shutdown under way. */
  ghost predicate Busy(s: State) {
    s.queue != [] || s.destroy != Before || exists t :: 0 <= t < |s.pcs| && HasNode(s.pcs[t])
  }

  /** Somebody can take a step of its own, other than start a shutdown. */
  ghost predicate SomeoneCanGo(s: State) {
    (s.destroy != Before && CanDestroy(s)) || exists t: nat, w: nat :: CanGo(s, t, w)
  }

  lemma {:induction false} ThreadCanGo(s: State, t: nat)
    requires Exclusive(s.pcs, s.lock, s.destroy) && Calm(s.pcs, s.queue == [], s.shutdown)
    requires t < |s.pcs| && s.pcs[t] != Asleep && s.pcs[t] != Exited && s.pcs[t] != Idle
    requires s.lock == Free || s.lock == By(t)
    ensures exists w: nat :: CanGo(s, t, w)
  {
    assert Ok(s.pcs[t], s.queue == [], s.shutdown) && (Holds(s.pcs[t]) <==> s.lock == By(t));
    if s.pcs[t] == Signal && SomeAsleep(s) {
      var w: nat :| w < |s.pcs| && s.pcs[w] == Asleep;
      assert CanGo(s, t, w);
    } else {
      assert CanGo(s, t, 0);
    }
  }

  lemma {:induction false} SomeWorkerAwake(s: State) returns (t: nat)
    requires Inv(s) && s.queue != [] && s.lock == Free
    ensures t < |s.pcs| && IsWorker(s.pcs[t]) && s.pcs[t] != Asleep
    ensures !s.shutdown ==> s.pcs[t] != Exited
  {
    forall u | 0 <= u < |s.pcs| ensures s.pcs[u] != Signal {
      assert Holds(s.pcs[u]) <==> s.lock == By(u);
    }
    t :| t < |s.pcs| && IsWorker(s.pcs[t]) && s.pcs[t] != Asleep;
    assert Ok(s.pcs[t], s.queue == [], s.shutdown);
  }

  /** The protocol never deadlocks: while anything is left to do some thread can go on, without a spurious
      wake-up, a new call or a new shutdown. */
  lemma {:induction false} NoDeadlock(s: State)
    requires Inv(s) && Busy(s) && s.destroy != Done
    ensures SomeoneCanGo(s)
  {
    if s.lock.By? {
      assert Holds(s.pcs[s.lock.t]) <==> s.lock == By(s.lock.t);
      ThreadCanGo(s, s.lock.t);
    } else if s.lock == Free && s.destroy == Join && !WorkersExited(s) {
      var t: nat :| t < |s.pcs| && IsWorker(s.pcs[t]) && s.pcs[t] != Exited;
      ThreadCanGo(s, t);
    } else if s.lock == Free && s.destroy == Before {
      if s.queue != [] {
        var t := SomeWorkerAwake(s);
        ThreadCanGo(s, t);
      } else {
        var t: nat :| t < |s.pcs| && HasNode(s.pcs[t]);
        ThreadCanGo(s, t);
      }
    }
  }

  /** How many steps a worker may still take once a shutdown is flagged. */
  function Left(pc: Pc): nat {
    match pc
    case Asleep => 5 case Woken => 4 case Enter => 4 case Wait => 6 case Test => 3 case Leave => 2 case Quit => 1
    case Take => 8 case Taken(_, _) => 7 case Run(_, _) => 6 case Return(_) => 5
    case _ => 0
  }

  function TotalLeft(pcs: seq<Pc>): nat {
    if pcs == [] then 0 else Left(pcs[0]) + TotalLeft(pcs[1..])
  }

  lemma {:induction false} TotalLeftMove(pcs: seq<Pc>, t: nat, pc: Pc)
    requires t < |pcs|
    ensures TotalLeft(pcs[t := pc]) == TotalLeft(pcs) - Left(pcs[t]) + Left(pc)
  {
    hide Left;
    if t == 0 {
      assert pcs[t := pc][1..] == pcs[1..];
    } else {
      assert pcs[t := pc][1..] == pcs[1..][t - 1 := pc];
      TotalLeftMove(pcs[1..], t - 1, pc);
    }
  }

  lemma {:induction false} TotalLeftWake(pcs: seq<Pc>)
    ensures TotalLeft(WakeAll(pcs)) <= TotalLeft(pcs)
  {
    if pcs != [] {
      assert WakeAll(pcs)[1..] == WakeAll(pcs[1..]);
      TotalLeftWake(pcs[1..]);
    }
  }

  /** What a step of its own leaves a thread, when a shutdown is flagged. */
  lemma {:induction false} LeftAfter(s: State, t: nat, w: nat)
    requires Calm(s.pcs, s.queue == [], s.shutdown) && s.shutdown && CanGo(s, t, w) && s.pcs[t] != Signal
    ensures if IsWorker(s.pcs[t]) then Left(AfterGo(s, t, w).pcs[t]) < Left(s.pcs[t])
            else Left(AfterGo(s, t, w).pcs[t]) == Left(s.pcs[t]) == 0
  {
    assert Ok(s.pcs[t], s.queue == [], s.shutdown);
  }

  lemma {:induction false} ShutdownSignal(s: State, t: nat, w: nat)
    requires CanGo(s, t, w) && s.pcs[t] == Signal
    ensures TotalLeft(AfterGo(s, t, w).pcs) <= TotalLeft(s.pcs)
  {
    hide TotalLeft;
    if SomeAsleep(s) {
      TotalLeftMove(s.pcs, w, Woken);
      TotalLeftMove(s.pcs[w := Woken], t, Unlock);
    } else {
      TotalLeftMove(s.pcs, t, Unlock);
    }
  }

  predicate WorkerStep(s: State, e: Event) {
    e.Go? && e.t < |s.pcs| && IsWorker(s.pcs[e.t])
  }

  lemma {:induction false} ShutdownGo(s: State, t: nat, w: nat)
    requires Calm(s.pcs, s.queue == [], s.shutdown) && s.shutdown && CanGo(s, t, w)
    ensures TotalLeft(AfterGo(s, t, w).pcs) + (if IsWorker(s.pcs[t]) then 1 else 0) <= TotalLeft(s.pcs)
    ensures AfterGo(s, t, w).shutdown
  {
    hide TotalLeft, Left;
    if s.pcs[t] == Signal {
      ShutdownSignal(s, t, w);
    } else {
      OnlyItself(s, t, w);
      LeftAfter(s, t, w);
      TotalLeftMove(s.pcs, t, AfterGo(s, t, w).pcs[t]);
    }
  }

  lemma {:induction false} ShutdownCall(s: State, t: nat, job: int)
    requires t < |s.pcs| && s.pcs[t] == Idle
    ensures TotalLeft(AfterCall(s, t, job).pcs) == TotalLeft(s.pcs) && AfterCall(s, t, job).shutdown == s.shutdown
  {
    hide TotalLeft;
    TotalLeftMove(s.pcs, t, AfterCall(s, t, job).pcs[t]);
  }

  lemma {:induction false} ShutdownSpurious(s: State, t: nat)
    requires t < |s.pcs| && s.pcs[t] == Asleep
    ensures TotalLeft(Move(s, t, Woken).pcs) <= TotalLeft(s.pcs)
  {
    hide TotalLeft;
    TotalLeftMove(s.pcs, t, Woken);
  }

  lemma {:induction false} ShutdownDestroy(s: State)
    requires s.shutdown
    ensures TotalLeft(AfterDestroy(s).pcs) <= TotalLeft(s.pcs) && AfterDestroy(s).shutdown
  {
    hide TotalLeft;
    TotalLeftWake(s.pcs);
  }

  /** Once a shutdown is flagged every step of a worker brings the end nearer, and no other step puts it off. */
  lemma {:induction false} ShutdownStep(s: State, e: Event)
    requires Inv(s) && s.shutdown && Enabled(s, e)
    ensures After(s, e).shutdown
    ensures TotalLeft(After(s, e).pcs) + (if WorkerStep(s, e) then 1 else 0) <= TotalLeft(s.pcs)
  {
    assert Calm(s.pcs, s.queue == [], s.shutdown);
    hide TotalLeft, Left, Inv, Calm, AfterGo, CanGo, AfterCall, AfterDestroy;
    match e
    case Go(t, w) => ShutdownGo(s, t, w);
    case Call(t, job) => ShutdownCall(s, t, job);
    case Spurious(t) => ShutdownSpurious(s, t);
    case Destroy => ShutdownDestroy(s);
  }

  function WorkerSteps(s: State, es: seq<Event>): nat
    requires Legal(s, es)
    decreases |es|
  {
    if es == [] then 0 else (if WorkerStep(s, es[0]) then 1 else 0) + WorkerSteps(After(s, es[0]), es[1..])
  }

  /** After the flag is set the workers take a bounded number of steps in all, whatever the schedule: they
      exit, and the joins of tpool_destroy return, if the routines do. */
  lemma {:induction false} ShutdownEnds(s: State, es: seq<Event>)
    requires Inv(s) && s.shutdown && Legal(s, es)
    ensures WorkerSteps(s, es) + TotalLeft(End(s, es).pcs) <= TotalLeft(s.pcs) <= 8 * |s.pcs|
    decreases |es|
  {
    LeftBound(s.pcs);
    hide Inv, Enabled, After, TotalLeft, WorkerStep;
    if es != [] {
      InvStep(s, es[0]);
      ShutdownStep(s, es[0]);
      ShutdownEnds(After(s, es[0]), es[1..]);
    }
  }

  lemma {:induction false} LeftBound(pcs: seq<Pc>)
    ensures TotalLeft(pcs) <= 8 * |pcs|
  {
    if pcs != [] {
      LeftBound(pcs[1..]);
    }
  }
}
