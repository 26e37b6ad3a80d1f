/** The thread pool around the ring: one acceptor that pushes, workers that pop
    and echo, a mutex and a condition variable. Each step below is one stretch
    of code run with the mutex held, or one scheduling event. */
module ThreadPool {
  import opened TaskQueue

  /** Outside: about to lock the mutex. Waiting: blocked in `pthread_cond_wait`.
      Signalled: woken there, but without the mutex yet. */
  datatype Worker = Outside | Waiting | Signalled | Echoing(fd: int)

  /** One return from `TaskQueuePop`; `after` is the number of pushes by then. */
  datatype Handoff = Handoff(worker: nat, fd: int, after: nat)

  datatype Pool = Pool(ring: Ring, workers: seq<Worker>, pushed: seq<int>, handed: seq<Handoff>)

  /** `wake` is the worker `pthread_cond_signal` unblocks; it may unblock more,
      which is the same as spurious wakeups. */
  datatype Event = Push(fd: int, wake: nat) | Attempt(worker: nat) | Spurious(worker: nat) | EchoDone(worker: nat)

  predicate AnyWaiting(workers: seq<Worker>) {
    exists w :: 0 <= w < |workers| && workers[w] == Waiting
  }

  predicate Enabled(p: Pool, e: Event) {
    && p.ring.Valid()
    && match e {
         case Push(_, w) => AnyWaiting(p.workers) ==> w < |p.workers| && p.workers[w] == Waiting
         case Attempt(w) => w < |p.workers| && p.workers[w] in {Outside, Signalled}
         case Spurious(w) => w < |p.workers| && p.workers[w] == Waiting
         case EchoDone(w) => w < |p.workers| && p.workers[w].Echoing?
       }
  }

  /** An attempt is the wait test and, if it lets through, the removal; the
      worker may have been waiting, or barge in from outside. */
  function Step(p: Pool, e: Event): Pool
    requires Enabled(p, e)
  {
    match e
    case Push(x, w) =>
      p.(ring := p.ring.Push(x), pushed := p.pushed + [x],
         workers := if AnyWaiting(p.workers) then p.workers[w := Signalled] else p.workers)
    case Attempt(w) =>
      if p.ring.head == p.ring.tail then p.(workers := p.workers[w := Waiting])
      else
        var x := p.ring.fd[p.ring.head];
        p.(ring := p.ring.Pop(), workers := p.workers[w := Echoing(x)],
           handed := p.handed + [Handoff(w, x, |p.pushed|)])
    case Spurious(w) => p.(workers := p.workers[w := Signalled])
    case EchoDone(w) => p.(workers := p.workers[w := Outside])
  }

  function Start(sum: nat, threads: nat): Pool
    requires sum > 0
  {
    Pool(Empty(sum), seq(threads, i => Outside), [], [])
  }

  /** `states` is a run of the pool, one event between each two states. */
  ghost predicate Run(states: seq<Pool>, events: seq<Event>, sum: nat, threads: nat) {
    && sum > 0 && |states| == |events| + 1 && states[0] == Start(sum, threads)
    && forall i :: 0 <= i < |events| ==> Enabled(states[i], events[i]) && states[i + 1] == Step(states[i], events[i])
  }

  // ---------------------------------------------------------------- no lost wakeup

  function Woken(workers: seq<Worker>): nat {
    if workers == [] then 0 else Woken(workers[1..]) + if workers[0] == Signalled then 1 else 0
  }

  lemma {:induction false} WokenUpdate(workers: seq<Worker>, w: nat, new': Worker)
    requires w < |workers|
    ensures Woken(workers[w := new'])
         == Woken(workers) - (if workers[w] == Signalled then 1 else 0) + (if new' == Signalled then 1 else 0)
  {
    if w > 0 {
      WokenUpdate(workers[1..], w - 1, new');
      assert workers[w := new'][1..] == workers[1..][w - 1 := new'];
    } else {
      assert workers[w := new'][1..] == workers[1..];
    }
  }

  /** While somebody sleeps unsignalled, every visible task has a woken worker
      that is still on its way to the mutex. */
  ghost predicate Covered(p: Pool) {
    p.ring.Valid() && (AnyWaiting(p.workers) ==> |p.ring.Tasks()| <= Woken(p.workers))
  }

  lemma CoveredStep(p: Pool, e: Event)
    requires Covered(p) && Enabled(p, e)
    ensures Covered(Step(p, e))
  {
    var p' := Step(p, e);
    match e
    case Push(x, w) =>
      PushTasks(p.ring, x);
      if AnyWaiting(p.workers) {
        WokenUpdate(p.workers, w, Signalled);
      }
    case Attempt(w) =>
      WokenUpdate(p.workers, w, p'.workers[w]);
      if p.ring.head != p.ring.tail {
        PopTasks(p.ring);
        assert AnyWaiting(p'.workers) ==> AnyWaiting(p.workers);
      }
    case Spurious(w) =>
      WokenUpdate(p.workers, w, Signalled);
    case EchoDone(w) =>
      WokenUpdate(p.workers, w, Outside);
      assert AnyWaiting(p'.workers) ==> AnyWaiting(p.workers);
  }

  lemma {:induction false} WokenWitness(workers: seq<Worker>)
    requires Woken(workers) > 0
    ensures exists w :: 0 <= w < |workers| && workers[w] == Signalled
  {
    if workers[0] != Signalled {
      WokenWitness(workers[1..]);
      var w :| 0 <= w < |workers| - 1 && workers[1..][w] == Signalled;
      assert workers[w + 1] == Signalled;
    }
  }

  /** In every state of every run: sleeping unsignalled workers are covered, so
      a visible task never meets a pool in which all workers sleep. */
  lemma {:induction false} NoLostWakeup(states: seq<Pool>, events: seq<Event>, sum: nat, threads: nat, i: nat)
    requires Run(states, events, sum, threads) && i < |states|
    ensures Covered(states[i])
    ensures |states[i].workers| == threads
    ensures states[i].ring.Tasks() != [] && threads > 0 ==>
              exists w :: 0 <= w < threads && states[i].workers[w] != Waiting
  {
    if i > 0 {
      NoLostWakeup(states, events, sum, threads, i - 1);
      CoveredStep(states[i - 1], events[i - 1]);
    }
    var p := states[i];
    if p.ring.Tasks() != [] && threads > 0 {
      if AnyWaiting(p.workers) {
        WokenWitness(p.workers);
      } else {
        assert p.workers[0] != Waiting;
      }
    }
  }

  // ---------------------------------------------------------------- what the workers get

  /** Without any bound: counters and cells agree, and hand-off number `k` was
      made when pushes and pops did not differ by whole turns, and carried the
      last value pushed by then into the cell of `k`. */
  ghost predicate Lawful(p: Pool, sum: nat) {
    && |p.ring.fd| == sum && Counts(p.ring, p.pushed, |p.handed|)
    && forall k :: 0 <= k < |p.handed| ==> LawfulHandoff(p.handed[k], k, p.pushed, sum)
  }

  ghost predicate LawfulHandoff(h: Handoff, k: nat, pushed: seq<int>, sum: nat)
    requires sum > 0
  {
    && k < h.after <= |pushed| && (h.after - k) % sum != 0
    && Taken(k, h.after, sum) < |pushed| && h.fd == pushed[Taken(k, h.after, sum)]
  }

  lemma LawfulStep(p: Pool, e: Event, sum: nat)
    requires Lawful(p, sum) && Enabled(p, e)
    ensures Lawful(Step(p, e), sum)
  {
    match e
    case Push(x, w) =>
      CountsPush(p.ring, p.pushed, |p.handed|, x);
    case Attempt(w) =>
      CountsPop(p.ring, p.pushed, |p.handed|);
      if p.ring.head != p.ring.tail {
        TakenIsLast(|p.handed|, |p.pushed|, sum);
      }
    case Spurious(w) =>
    case EchoDone(w) =>
  }

  lemma {:induction false} RunLawful(states: seq<Pool>, events: seq<Event>, sum: nat, threads: nat, i: nat)
    requires Run(states, events, sum, threads) && i < |states|
    ensures Lawful(states[i], sum)
  {
    if i == 0 {
      CountsEmpty(sum);
    } else {
      RunLawful(states, events, sum, threads, i - 1);
      LawfulStep(states[i - 1], events[i - 1], sum);
    }
  }

  /** So, with distinct descriptors, hand-off `k` is push `k` exactly when fewer
      than `sum` tasks were waiting at that moment. */
  lemma InOrderExactly(states: seq<Pool>, events: seq<Event>, sum: nat, threads: nat, i: nat, k: nat)
    requires Run(states, events, sum, threads) && i < |states| && k < |states[i].handed|
    requires forall a, b :: 0 <= a < b < |states[i].pushed| ==> states[i].pushed[a] != states[i].pushed[b]
    ensures k < |states[i].pushed|
    ensures states[i].handed[k].fd == states[i].pushed[k] <==> states[i].handed[k].after - k < sum
  {
    RunLawful(states, events, sum, threads, i);
    var h := states[i].handed[k];
    assert LawfulHandoff(h, k, states[i].pushed, sum);
    TakenIsLast(k, h.after, sum);
    if h.after - k == sum {
      CellUnique(sum, 1, 0, sum);
    }
  }

  function Fds(handed: seq<Handoff>): (r: seq<int>)
    ensures |r| == |handed| && forall k :: 0 <= k < |r| ==> r[k] == handed[k].fd
  {
    if handed == [] then [] else [handed[0].fd] + Fds(handed[1..])
  }

  lemma {:induction false} FdsAppend(handed: seq<Handoff>, h: Handoff)
    ensures Fds(handed + [h]) == Fds(handed) + [h.fd]
  {
    if handed != [] {
      FdsAppend(handed[1..], h);
      assert (handed + [h])[1..] == handed[1..] + [h];
    }
  }

  /** Nothing lost, nothing duplicated, nothing overtaken. */
  ghost predicate Fifo(p: Pool) {
    p.ring.Valid() && p.pushed == Fds(p.handed) + p.ring.Tasks()
  }

  /** The full test that `TaskQueuePush` lacks. */
  predicate HasRoom(p: Pool) {
    p.ring.Valid() && |p.ring.Tasks()| + 1 < |p.ring.fd|
  }

  lemma FifoStep(p: Pool, e: Event)
    requires Fifo(p) && Enabled(p, e)
    ensures Fifo(Step(p, e)) <==> (e.Push? ==> HasRoom(p))
  {
    hide Ring.Tasks, Fds;
    match e
    case Push(x, w) =>
      PushTasks(p.ring, x);
      if HasRoom(p) {
        assert p.pushed + [x] == Fds(p.handed) + (p.ring.Tasks() + [x]);
      }
    case Attempt(w) =>
      if p.ring.head != p.ring.tail {
        PopTasks(p.ring);
        FdsAppend(p.handed, Handoff(w, p.ring.fd[p.ring.head], |p.pushed|));
      }
    case Spurious(w) =>
    case EchoDone(w) =>
  }

  /** A run is first-in first-out up to state `n` exactly when every push before
      it found room; the descriptors handed out are then a prefix of those
      accepted, and the rest are the visible tasks. */
  lemma {:induction false} FifoExactly(states: seq<Pool>, events: seq<Event>, sum: nat, threads: nat, n: nat)
    requires Run(states, events, sum, threads) && n < |states|
    ensures (forall i :: 0 <= i <= n ==> Fifo(states[i]))
       <==> (forall i :: 0 <= i < n && events[i].Push? ==> HasRoom(states[i]))
  {
    if n > 0 {
      FifoExactly(states, events, sum, threads, n - 1);
      if Fifo(states[n - 1]) {
        var last := n - 1;
        FifoStep(states[last], events[last]);
        assert states[last + 1] == Step(states[last], events[last]);
        assert Fifo(states[n]) <==> (events[last].Push? ==> HasRoom(states[last]));
      }
    } else {
      assert states[0].pushed == Fds(states[0].handed) + states[0].ring.Tasks();
    }
  }

  /** In particular when never more than `sum - 1` accepted descriptors are without
      a worker; each of them then goes to one worker at most. */
  lemma BoundedIsFifo(states: seq<Pool>, events: seq<Event>, sum: nat, threads: nat, n: nat)
    requires Run(states, events, sum, threads) && n < |states|
    requires forall i :: 0 <= i < |states| ==> |states[i].pushed| - |states[i].handed| < sum
    ensures Fifo(states[n]) && Fds(states[n].handed) <= states[n].pushed
    ensures |multiset(states[n].pushed)| == |multiset(Fds(states[n].handed))| + |states[n].ring.Tasks()|
    ensures multiset(Fds(states[n].handed)) <= multiset(states[n].pushed)
  {
    forall i | 0 <= i < n && events[i].Push?
      ensures HasRoom(states[i])
    {
      RunLawful(states, events, sum, threads, i);
      CountsTasks(states[i].ring, states[i].pushed, |states[i].handed|);
      assert states[i + 1] == Step(states[i], events[i]);
      CellUnique(|states[i].pushed| - |states[i].handed|, 0, |states[i].pushed| - |states[i].handed|, sum);
    }
    FifoExactly(states, events, sum, threads, n);
    var p := states[n];
    assert multiset(p.pushed) == multiset(Fds(p.handed)) + multiset(p.ring.Tasks());
  }

  // ---------------------------------------------------------------- what the workers echo on

  /** The hand-off `k` is the last one to worker `w`. */
  ghost predicate LastOf(handed: seq<Handoff>, w: nat, k: nat) {
    && k < |handed| && handed[k].worker == w
    && forall j :: k < j < |handed| ==> handed[j].worker != w
  }

  /** A worker in `do_echo` is there with the descriptor of its own last hand-off. */
  ghost predicate EchoesItsOwn(p: Pool) {
    forall w :: 0 <= w < |p.workers| && p.workers[w].Echoing? ==>
      exists k: nat :: LastOf(p.handed, w, k) && p.handed[k].fd == p.workers[w].fd
  }

  lemma EchoesItsOwnStep(p: Pool, e: Event)
    requires EchoesItsOwn(p) && Enabled(p, e)
    ensures EchoesItsOwn(Step(p, e))
  {
    var p' := Step(p, e);
    forall w | 0 <= w < |p'.workers| && p'.workers[w].Echoing?
      ensures exists k: nat :: LastOf(p'.handed, w, k) && p'.handed[k].fd == p'.workers[w].fd
    {
      if e.Attempt? && e.worker == w {
        assert LastOf(p'.handed, w, |p.handed|);
      } else {
        assert p.workers[w] == p'.workers[w];
        var k: nat :| LastOf(p.handed, w, k) && p.handed[k].fd == p.workers[w].fd;
        assert LastOf(p'.handed, w, k);
      }
    }
  }

  lemma {:induction false} EchoesItsOwnAlways(states: seq<Pool>, events: seq<Event>, sum: nat, threads: nat, i: nat)
    requires Run(states, events, sum, threads) && i < |states|
    ensures EchoesItsOwn(states[i])
  {
    hide EchoesItsOwn, Step, Enabled;
    if i > 0 {
      EchoesItsOwnAlways(states, events, sum, threads, i - 1);
      EchoesItsOwnStep(states[i - 1], events[i - 1]);
      assert states[i - 1 + 1] == Step(states[i - 1], events[i - 1]);
    } else {
      NobodyEchoes(sum, threads);
    }
  }

  lemma NobodyEchoes(sum: nat, threads: nat)
    requires sum > 0
    ensures EchoesItsOwn(Start(sum, threads))
  {
  }

  /** With different descriptors and never more than `sum - 1` of them unserved, every
      connection being echoed was accepted, and no two workers echo on the same one. */
  lemma OneWorkerEach(states: seq<Pool>, events: seq<Event>, sum: nat, threads: nat, n: nat)
    requires Run(states, events, sum, threads) && n < |states|
    requires forall i :: 0 <= i < |states| ==> |states[i].pushed| - |states[i].handed| < sum
    requires forall a, b :: 0 <= a < b < |states[n].pushed| ==> states[n].pushed[a] != states[n].pushed[b]
    ensures var workers := states[n].workers;
            && (forall w :: 0 <= w < |workers| && workers[w].Echoing? ==> workers[w].fd in states[n].pushed)
            && (forall v, w :: 0 <= v < w < |workers| && workers[v].Echoing? && workers[w].Echoing? ==>
                  workers[v].fd != workers[w].fd)
  {
    hide Step, Enabled;
    BoundedIsFifo(states, events, sum, threads, n);
    EchoesItsOwnAlways(states, events, sum, threads, n);
    EchoesApart(states[n]);
  }

  lemma EchoesApart(p: Pool)
    requires EchoesItsOwn(p) && Fds(p.handed) <= p.pushed
    requires forall a, b :: 0 <= a < b < |p.pushed| ==> p.pushed[a] != p.pushed[b]
    ensures forall w :: 0 <= w < |p.workers| && p.workers[w].Echoing? ==> p.workers[w].fd in p.pushed
    ensures forall v, w :: 0 <= v < w < |p.workers| && p.workers[v].Echoing? && p.workers[w].Echoing? ==>
              p.workers[v].fd != p.workers[w].fd
  {
    forall w | 0 <= w < |p.workers| && p.workers[w].Echoing?
      ensures p.workers[w].fd in p.pushed
    {
      var k: nat :| LastOf(p.handed, w, k) && p.handed[k].fd == p.workers[w].fd;
      assert Fds(p.handed)[k] == p.pushed[k];
    }
    forall v, w | 0 <= v < w < |p.workers| && p.workers[v].Echoing? && p.workers[w].Echoing?
      ensures p.workers[v].fd != p.workers[w].fd
    {
      var j: nat :| LastOf(p.handed, v, j) && p.handed[j].fd == p.workers[v].fd;
      var k: nat :| LastOf(p.handed, w, k) && p.handed[k].fd == p.workers[w].fd;
      assert Fds(p.handed)[j] == p.pushed[j] && Fds(p.handed)[k] == p.pushed[k];
      assert j < k || k < j;
    }
  }

  // ---------------------------------------------------------------- overflow

  function All(threads: nat, w: Worker): (r: seq<Worker>)
    ensures |r| == threads && forall i :: 0 <= i < threads ==> r[i] == w
  {
    seq(threads, i => w)
  }

  function Last(states: seq<Pool>): Pool
    requires states != []
  {
    states[|states| - 1]
  }

  lemma RunOn(states: seq<Pool>, events: seq<Event>, e: Event, sum: nat, threads: nat)
    requires Run(states, events, sum, threads) && Enabled(Last(states), e)
    ensures Run(states + [Step(Last(states), e)], events + [e], sum, threads)
    ensures Last(states + [Step(Last(states), e)]) == Step(Last(states), e)
  {
    hide Step, Enabled;
  }

  /** Every descriptor is pushed before a worker gets the mutex. */
  lemma {:induction false} PushesRun(fds: seq<int>, n: nat, sum: nat, threads: nat)
    returns (states: seq<Pool>, events: seq<Event>)
    requires sum > 0 && n <= |fds|
    ensures Run(states, events, sum, threads) && |events| == n
    ensures Last(states).pushed == fds[..n] && Last(states).handed == []
    ensures Last(states).workers == All(threads, Outside)
  {
    if n == 0 {
      states, events := [Start(sum, threads)], [];
    } else {
      states, events := PushesRun(fds, n - 1, sum, threads);
      NoLostWakeup(states, events, sum, threads, |states| - 1);
      var e := Push(fds[n - 1], 0);
      RunOn(states, events, e, sum, threads);
      states, events := states + [Step(Last(states), e)], events + [e];
    }
  }

  /** Then one worker after the other sees nothing and goes to sleep. */
  lemma {:induction false} SleepsRun(states: seq<Pool>, events: seq<Event>, n: nat, sum: nat, threads: nat)
    returns (states': seq<Pool>, events': seq<Event>)
    requires Run(states, events, sum, threads) && n <= threads
    requires Last(states).workers == All(threads, Outside) && Last(states).ring.head == Last(states).ring.tail
    ensures Run(states', events', sum, threads) && |events'| == |events| + n
    ensures Last(states') == Last(states).(workers := All(n, Waiting) + All(threads - n, Outside))
  {
    if n == 0 {
      states', events' := states, events;
      assert Last(states).workers == All(0, Waiting) + All(threads, Outside);
    } else {
      states', events' := SleepsRun(states, events, n - 1, sum, threads);
      NoLostWakeup(states', events', sum, threads, |states'| - 1);
      var e := Attempt(n - 1);
      RunOn(states', events', e, sum, threads);
      assert Step(Last(states'), e).workers == All(n, Waiting) + All(threads - n, Outside);
      states', events' := states' + [Step(Last(states'), e)], events' + [e];
    }
  }

  /** The missing test matters: in a ring of any size, as many pushes as it has cells
      leave nothing to see, and every worker of a pool of any size goes to sleep. */
  lemma OverflowStrands(fds: seq<int>, threads: nat) returns (states: seq<Pool>, events: seq<Event>)
    requires |fds| > 0
    ensures Run(states, events, |fds|, threads) && |events| == |fds| + threads
    ensures Last(states).pushed == fds && Last(states).handed == []
    ensures Last(states).workers == All(threads, Waiting)
    ensures Last(states).ring.Valid() && Last(states).ring.Tasks() == []
  {
    var sum := |fds|;
    states, events := PushesRun(fds, sum, sum, threads);
    assert fds[..sum] == fds;
    RunLawful(states, events, sum, threads, |states| - 1);
    var ring := Last(states).ring;
    CountsPop(ring, fds, 0);
    states, events := SleepsRun(states, events, threads, sum, threads);
    NoLostWakeup(states, events, sum, threads, |states| - 1);
    assert All(threads, Waiting) + All(0, Outside) == All(threads, Waiting);
  }
}
