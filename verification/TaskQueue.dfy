/** The ring of the thread-pool server: `TaskQueueInit`, `TaskQueuePush`,
    `TaskQueuePop`. Push has no full check, so a push onto `sum - 1` waiting
    tasks makes all of them disappear. */
module TaskQueue {

  /** `queue->fd`, `queue->head`, `queue->tail` as a value. */
  datatype Ring = Ring(fd: seq<int>, head: nat, tail: nat) {
    predicate Valid() {
      head < |fd| && tail < |fd|
    }

    function Next(i: nat): nat {
      if i + 1 == |fd| then 0 else i + 1
    }

    function Push(x: int): Ring
      requires Valid()
    {
      Ring(fd[tail := x], head, Next(tail))
    }

    function Pop(): Ring
      requires Valid()
    {
      Ring(fd, Next(head), tail)
    }

    /** The tasks the workers can see, oldest first. */
    function Tasks(): (s: seq<int>)
      requires Valid()
      ensures |s| < |fd|
      ensures (s == []) == (head == tail)
    {
      if head <= tail then fd[head..tail] else fd[head..] + fd[..tail]
    }
  }

  function Empty(sum: nat): (r: Ring)
    requires sum > 0
    ensures r.Valid() && r.Tasks() == []
  {
    Ring(seq(sum, i => 0), 0, 0)
  }

  /** Below `sum - 1` visible tasks a push appends; at `sum - 1` it leaves a ring
      in which no task is visible any more. */
  lemma PushTasks(r: Ring, x: int)
    requires r.Valid()
    ensures r.Push(x).Valid()
    ensures r.Push(x).Tasks() == if |r.Tasks()| + 1 < |r.fd| then r.Tasks() + [x] else []
  {
    if |r.Tasks()| + 1 < |r.fd| {
      assert r.Push(x).Tasks() == r.Tasks() + [x];
    }
  }

  lemma PopTasks(r: Ring)
    requires r.Valid() && r.head != r.tail
    ensures r.Pop().Valid()
    ensures r.Tasks() == [r.fd[r.head]] + r.Pop().Tasks()
  {
  }

  /** The queue object the acceptor and the workers share. */
  class Queue {
    const sum: nat
    const fd: array<int>
    var head: nat
    var tail: nat

    ghost predicate Valid()
      reads this, fd
    {
      fd.Length == sum && head < sum && tail < sum
    }

    function Model(): (r: Ring)
      reads this, fd
      requires Valid()
      ensures r.Valid() && |r.fd| == sum
    {
      Ring(fd[..], head, tail)
    }

    constructor (sum: nat)
      requires sum > 0
      ensures Valid() && fresh(fd) && Model() == Empty(sum)
    {
      this.sum := sum;
      fd := new int[sum](i => 0);
      head, tail := 0, 0;
      new;
      assert fd[..] == Empty(sum).fd;
    }

    /** The critical section of `TaskQueuePush`. */
    method Push(x: int)
      requires Valid()
      modifies this, fd
      ensures Valid() && Model() == old(Model()).Push(x)
      ensures Model().Tasks() == if |old(Model()).Tasks()| + 1 < sum then old(Model()).Tasks() + [x] else []
    {
      PushTasks(Model(), x);
      fd[tail] := x;
      tail := tail + 1;
      if tail == sum {
        tail := 0;
      }
    }

    /** The part of `TaskQueuePop` run with the mutex held: the wait test, and,
        when it lets the worker through, the removal. */
    method TryPop() returns (ok: bool, x: int)
      requires Valid()
      modifies this
      ensures Valid() && ok == (old(Model()).Tasks() != [])
      ensures ok ==> Model() == old(Model()).Pop() && old(Model()).Tasks() == [x] + Model().Tasks()
      ensures !ok ==> Model() == old(Model())
    {
      if tail == head {
        return false, 0;
      }
      PopTasks(Model());
      ok, x := true, fd[head];
      head := head + 1;
      if head == sum {
        head := 0;
      }
    }
  }

  // ---------------------------------------------------------------- counting pushes and pops

  /** `n` reduced to a cell index. */
  function Cell(n: nat, sum: nat): (c: nat)
    requires sum > 0
    ensures c < sum
  {
    n % sum
  }

  lemma CellUnique(n: int, q: int, c: int, sum: int)
    requires 0 < sum && 0 <= c < sum && n == q * sum + c
    ensures n / sum == q && n % sum == c
  {
    var d := n / sum - q;
    assert n == n / sum * sum + n % sum;
    assert d * sum == c - n % sum;
    assert d >= 1 ==> d * sum >= sum;
    assert d <= -1 ==> d * sum <= -sum;
  }

  lemma CellNext(n: nat, sum: nat)
    requires sum > 0
    ensures Cell(n + 1, sum) == if Cell(n, sum) + 1 == sum then 0 else Cell(n, sum) + 1
  {
    if n % sum + 1 == sum {
      CellUnique(n + 1, n / sum + 1, 0, sum);
    } else {
      CellUnique(n + 1, n / sum, n % sum + 1, sum);
    }
  }

  /** Two counts name the same cell exactly when they differ by whole turns. */
  lemma CellSame(a: nat, b: nat, sum: nat)
    requires sum > 0 && a <= b
    ensures Cell(a, sum) == Cell(b, sum) <==> (b - a) % sum == 0
  {
    var q := (b - a) / sum;
    if (b - a) % sum == 0 {
      CellUnique(b, a / sum + q, a % sum, sum);
    }
    if a % sum == b % sum {
      CellUnique(b - a, b / sum - a / sum, 0, sum);
    }
  }

  /** The number of the push that pop number `k` (from 0) returns when it happens
      after `n` pushes: the last one, among the first `n`, into the cell of `k`. */
  function Taken(k: nat, n: nat, sum: nat): (j: nat)
    requires sum > 0 && k < n
    ensures k <= j
  {
    var j := k + (n - 1 - k) / sum * sum;
    assert (n - 1 - k) / sum >= 0;
    j
  }

  lemma TakenIsLast(k: nat, n: nat, sum: nat)
    requires sum > 0 && k < n
    ensures var j := Taken(k, n, sum); k <= j < n <= j + sum && Cell(j, sum) == Cell(k, sum)
    ensures Taken(k, n, sum) == k <==> n - k <= sum
  {
    var q := (n - 1 - k) / sum;
    assert n - 1 - k == q * sum + (n - 1 - k) % sum;
    CellUnique(k + q * sum, k / sum + q, k % sum, sum);
    if n - k <= sum {
      CellUnique(n - 1 - k, 0, n - 1 - k, sum);
    } else {
      assert q >= 1;
      assert q * sum >= sum;
    }
  }

  /** What a ring holds after the pushes `pushed` and `pops` pops, with no
      assumption on how many tasks wait. */
  ghost predicate Counts(r: Ring, pushed: seq<int>, pops: nat) {
    var sum, n := |r.fd|, |pushed|;
    && sum > 0 && pops <= n
    && r.head == Cell(pops, sum) && r.tail == Cell(n, sum)
    && forall k :: 0 <= k < n <= k + sum ==> r.fd[Cell(k, sum)] == pushed[k]
  }

  lemma CountsEmpty(sum: nat)
    requires sum > 0
    ensures Counts(Empty(sum), [], 0)
  {
    CellUnique(0, 0, 0, sum);
  }

  lemma CountsPush(r: Ring, pushed: seq<int>, pops: nat, x: int)
    requires Counts(r, pushed, pops)
    ensures r.Valid() && Counts(r.Push(x), pushed + [x], pops)
  {
    var sum, n := |r.fd|, |pushed|;
    CellNext(n, sum);
    forall k | 0 <= k < n + 1 <= k + sum
      ensures r.Push(x).fd[Cell(k, sum)] == (pushed + [x])[k]
    {
      if k < n {
        CellSame(k, n, sum);
        CellUnique(n - k, 0, n - k, sum);
      }
    }
  }

  /** The exact law of pop, without any bound on the number of waiting tasks: it
      is enabled unless pushes and pops differ by whole turns, and it returns the
      last value pushed into its cell. */
  lemma CountsPop(r: Ring, pushed: seq<int>, pops: nat)
    requires Counts(r, pushed, pops)
    ensures r.Valid() && (r.head != r.tail <==> (|pushed| - pops) % |r.fd| != 0)
    ensures r.head != r.tail ==>
              && pops < |pushed|
              && r.fd[r.head] == pushed[Taken(pops, |pushed|, |r.fd|)]
              && Counts(r.Pop(), pushed, pops + 1)
  {
    var sum, n := |r.fd|, |pushed|;
    CellSame(pops, n, sum);
    if r.head != r.tail {
      TakenIsLast(pops, n, sum);
      CellNext(pops, sum);
      assert Cell(Taken(pops, n, sum), sum) == r.head;
    }
  }

  /** The visible tasks are as many as pushes exceed pops, up to whole turns; and
      they are the pushed tasks not yet popped unless a whole turn is missing. */
  lemma CountsTasks(r: Ring, pushed: seq<int>, pops: nat)
    requires Counts(r, pushed, pops)
    ensures r.Valid() && |r.Tasks()| == (|pushed| - pops) % |r.fd|
    ensures r.Tasks() == pushed[pops..] <==> |pushed| - pops < |r.fd|
  {
    var sum, n, tasks := |r.fd|, |pushed|, r.Tasks();
    var turns := if r.head <= r.tail then n / sum - pops / sum else n / sum - pops / sum - 1;
    CellUnique(n - pops, turns, |tasks|, sum);
    if n - pops < sum {
      CellUnique(n - pops, 0, n - pops, sum);
      forall i | 0 <= i < |tasks|
        ensures tasks[i] == pushed[pops + i]
      {
        TaskCell(r, pops, i);
        assert r.fd[Cell(pops + i, sum)] == pushed[pops + i];
      }
    }
  }

  lemma TaskCell(r: Ring, pops: nat, i: nat)
    requires r.Valid() && r.head == Cell(pops, |r.fd|) && i < |r.Tasks()|
    ensures r.Tasks()[i] == r.fd[Cell(pops + i, |r.fd|)]
  {
    var sum := |r.fd|;
    if r.head + i < sum {
      CellUnique(pops + i, pops / sum, r.head + i, sum);
    } else {
      CellUnique(pops + i, pops / sum + 1, r.head + i - sum, sum);
    }
  }
}
