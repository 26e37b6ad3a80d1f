/** The event loop of the poll server: slot 0 holds the listener, slots 1 to 127
    connections; a negative descriptor marks a free slot. */
module PollServer {
  import opened Bytes

  const POLLSIZE := 128
  const BUFFSIZE := 512

  /** What `poll` reports for slot 0: nothing, readable, or some other event. */
  datatype Listener = Quiet | Pending | Odd

  /** What `recv` would give for a slot: some bytes, or end of stream or error. */
  datatype Outcome = Data(bytes: seq<byte>) | Gone

  /** One pass over a slot that poll reported: an echo, or a close. */
  datatype Served = Echoed(slot: nat, fd: int, reply: seq<byte>) | Dropped(slot: nat, fd: int)

  /** One wake-up: `ready[i]` says that slot `i`'s `revents` has one of the three
      tested bits, `accepted` is what `accept` would return. */
  datatype Wake = Wake(listener: Listener, ready: seq<bool>, accepted: int, outcomes: seq<Outcome>)

  ghost predicate Table(fds: seq<int>) {
    |fds| == POLLSIZE && fds[0] >= 0
  }

  /** What `poll` guarantees: it looks at no negative descriptor. */
  ghost predicate Polled(fds: seq<int>, w: Wake) {
    && |w.ready| == |w.outcomes| == |fds|
    && (forall i :: 0 <= i < |fds| && fds[i] < 0 ==> !w.ready[i])
    && (forall i :: 0 <= i < |fds| && w.outcomes[i].Data? ==> |w.outcomes[i].bytes| <= BUFFSIZE)
  }

  // ---------------------------------------------------------------- the full scan

  /** Handling of slot `i` when it was reported. */
  function Serve(fd: int, i: nat, o: Outcome): Served {
    match o
    case Data(bytes) => Echoed(i, fd, UpperAll(CString(bytes)))
    case Gone => Dropped(i, fd)
  }

  /** The slot is open and was reported. */
  predicate Ready(fds: seq<int>, w: Wake, i: nat)
    requires i < |fds| == |w.ready|
  {
    fds[i] >= 0 && w.ready[i]
  }

  /** The scan that visits every slot from `i` on: the table and what was done. */
  function FullScan(fds: seq<int>, w: Wake, i: nat): (r: (seq<int>, seq<Served>))
    requires i <= |fds| == |w.ready| == |w.outcomes|
    ensures |r.0| == |fds|
    decreases |fds| - i
  {
    if i == |fds| then (fds, [])
    else if !Ready(fds, w, i) then FullScan(fds, w, i + 1)
    else
      var (fds', log) := FullScan(if w.outcomes[i].Gone? then fds[i := -1] else fds, w, i + 1);
      (fds', [Serve(fds[i], i, w.outcomes[i])] + log)
  }

  /** Slots from `i` on that the scan will serve. */
  function ReadyFrom(fds: seq<int>, w: Wake, i: nat): nat
    requires i <= |fds| == |w.ready|
    decreases |fds| - i
  {
    if i == |fds| then 0 else ReadyFrom(fds, w, i + 1) + if Ready(fds, w, i) then 1 else 0
  }

  lemma {:induction false} NothingReady(fds: seq<int>, w: Wake, i: nat)
    requires i <= |fds| == |w.ready| == |w.outcomes| && ReadyFrom(fds, w, i) == 0
    ensures FullScan(fds, w, i) == (fds, [])
    decreases |fds| - i
  {
    if i < |fds| {
      NothingReady(fds, w, i + 1);
    }
  }

  lemma {:induction false} ReadyUnchanged(fds: seq<int>, w: Wake, k: nat, fd: int, i: nat)
    requires k < |fds| && i <= |fds| == |w.ready| && (k < i || !w.ready[k])
    ensures ReadyFrom(fds[k := fd], w, i) == ReadyFrom(fds, w, i)
    decreases |fds| - i
  {
    if i < |fds| {
      ReadyUnchanged(fds, w, k, fd, i + 1);
    }
  }

  /** First free connection slot from `i` on; the length if there is none. */
  function FirstFree(fds: seq<int>, i: nat): (k: nat)
    requires i <= |fds|
    ensures i <= k <= |fds| && (k < |fds| ==> fds[k] < 0)
    ensures forall j :: i <= j < k ==> fds[j] >= 0
    decreases |fds| - i
  {
    if i == |fds| || fds[i] < 0 then i else FirstFree(fds, i + 1)
  }

  /** The table after a descriptor was accepted, if a slot was free for it. */
  function Place(fds: seq<int>, fd: int): (r: seq<int>)
    requires |fds| > 0
    ensures |r| == |fds|
  {
    var k := FirstFree(fds, 1);
    if k < |fds| then fds[k := fd] else fds
  }

  /** The reports the loop will use up; `poll` returns at least as many. */
  function Retval(fds: seq<int>, w: Wake): nat
    requires 0 < |fds| == |w.ready|
  {
    ReadyFrom(fds, w, 1) + if w.listener == Quiet then 0 else 1
  }

  /** The wake-up handled without shortcuts: table, actions, and whether a
      descriptor was accepted and closed again for want of a slot. A failed accept
      abandons the wake-up. */
  function Round(fds: seq<int>, w: Wake): (seq<int>, seq<Served>, bool)
    requires 0 < |fds| == |w.ready| == |w.outcomes|
  {
    if w.listener == Pending && w.accepted < 0 then (fds, [], false)
    else
      var fds1 := if w.listener == Pending then Place(fds, w.accepted) else fds;
      var (fds2, log) := FullScan(fds1, w, 1);
      (fds2, log, w.listener == Pending && FirstFree(fds, 1) == |fds|)
  }

  // ---------------------------------------------------------------- what a wake-up amounts to

  /** The one thing done for a reported slot: what arrived goes back raised, up to its
      first NUL, to the descriptor in the slot; if nothing did, that one is closed. */
  ghost predicate Answered(s: Served, fds: seq<int>, w: Wake)
    requires s.slot < |fds| == |w.outcomes|
  {
    && s.fd == fds[s.slot]
    && match w.outcomes[s.slot]
       case Data(bytes) => s.Echoed? && Raised(s.reply, CString(bytes))
       case Gone => s.Dropped?
  }

  ghost predicate InOrder(log: seq<Served>) {
    forall a, b :: 0 <= a < b < |log| ==> log[a].slot < log[b].slot
  }

  ghost predicate AllAnswered(fds: seq<int>, w: Wake, i: nat, log: seq<Served>)
    requires |fds| == |w.ready| == |w.outcomes|
  {
    forall a :: 0 <= a < |log| ==> i <= log[a].slot < |fds| && Ready(fds, w, log[a].slot) && Answered(log[a], fds, w)
  }

  ghost predicate NoneForgotten(fds: seq<int>, w: Wake, i: nat, log: seq<Served>)
    requires |fds| == |w.ready|
  {
    forall j :: i <= j < |fds| && Ready(fds, w, j) ==> exists a :: 0 <= a < |log| && log[a].slot == j
  }

  ghost predicate OnlyGoneFreed(fds: seq<int>, w: Wake, i: nat, fds': seq<int>)
    requires |fds| == |w.ready| == |w.outcomes|
  {
    && |fds'| == |fds|
    && forall j :: 0 <= j < |fds| ==>
         fds'[j] == if i <= j && Ready(fds, w, j) && w.outcomes[j].Gone? then -1 else fds[j]
  }

  /** From slot `i` on: one action for each reported slot, in slot order; a slot with
      nothing to read becomes free, and nothing else changes. */
  ghost predicate Handled(fds: seq<int>, w: Wake, i: nat, log: seq<Served>, fds': seq<int>)
    requires |fds| == |w.ready| == |w.outcomes|
  {
    InOrder(log) && AllAnswered(fds, w, i, log) && NoneForgotten(fds, w, i, log) && OnlyGoneFreed(fds, w, i, fds')
  }

  lemma {:induction false} ScanHandles(fds: seq<int>, w: Wake, i: nat)
    requires i <= |fds| == |w.ready| == |w.outcomes|
    ensures Handled(fds, w, i, FullScan(fds, w, i).1, FullScan(fds, w, i).0)
    decreases |fds| - i
  {
    if i < |fds| {
      if Ready(fds, w, i) {
        hide Answered, Serve, InOrder, AllAnswered, NoneForgotten, OnlyGoneFreed;
        var fds1 := if w.outcomes[i].Gone? then fds[i := -1] else fds;
        ScanHandles(fds1, w, i + 1);
        ServeAnswers(fds, w, i);
        var rest := FullScan(fds1, w, i + 1);
        AnsweredOneMore(fds, w, i, fds1, Serve(fds[i], i, w.outcomes[i]), rest.1);
        NoneForgottenOneMore(fds, w, i, fds1, Serve(fds[i], i, w.outcomes[i]), rest.1);
        FreedOneMore(fds, w, i, fds1, rest.0);
      } else {
        ScanHandles(fds, w, i + 1);
      }
    }
  }

  lemma ServeAnswers(fds: seq<int>, w: Wake, i: nat)
    requires i < |fds| == |w.outcomes|
    ensures Serve(fds[i], i, w.outcomes[i]).slot == i && Answered(Serve(fds[i], i, w.outcomes[i]), fds, w)
  {
    if w.outcomes[i].Data? {
      UpperRaises(CString(w.outcomes[i].bytes));
    }
  }

  lemma AnsweredOneMore(fds: seq<int>, w: Wake, i: nat, fds1: seq<int>, s: Served, log: seq<Served>)
    requires i < |fds| == |w.ready| == |w.outcomes| && Ready(fds, w, i) && s.slot == i && Answered(s, fds, w)
    requires fds1 == fds || fds1 == fds[i := -1]
    requires InOrder(log) && AllAnswered(fds1, w, i + 1, log)
    ensures InOrder([s] + log) && AllAnswered(fds, w, i, [s] + log)
  {
    hide Raised;
    forall a | 0 <= a < |[s] + log|
      ensures var e := ([s] + log)[a];
              i <= e.slot < |fds| && Ready(fds, w, e.slot) && Answered(e, fds, w)
    {
      if a > 0 {
        var e := log[a - 1];
        assert ([s] + log)[a] == e && Ready(fds1, w, e.slot) && Answered(e, fds1, w);
      }
    }
  }

  lemma FreedOneMore(fds: seq<int>, w: Wake, i: nat, fds1: seq<int>, fds': seq<int>)
    requires i < |fds| == |w.ready| == |w.outcomes| && Ready(fds, w, i)
    requires fds1 == if w.outcomes[i].Gone? then fds[i := -1] else fds
    requires OnlyGoneFreed(fds1, w, i + 1, fds')
    ensures OnlyGoneFreed(fds, w, i, fds')
  {
  }

  lemma NoneForgottenOneMore(fds: seq<int>, w: Wake, i: nat, fds1: seq<int>, s: Served, log: seq<Served>)
    requires i < |fds| == |w.ready| && s.slot == i && (fds1 == fds || fds1 == fds[i := -1])
    requires NoneForgotten(fds1, w, i + 1, log)
    ensures NoneForgotten(fds, w, i, [s] + log)
  {
    var all := [s] + log;
    forall j | i <= j < |fds| && Ready(fds, w, j)
      ensures exists a :: 0 <= a < |all| && all[a].slot == j
    {
      if j > i {
        assert Ready(fds1, w, j);
        var a :| 0 <= a < |log| && log[a].slot == j;
        assert all[a + 1].slot == j;
      } else {
        assert all[0].slot == j;
      }
    }
  }

  /** Slot `k` is the one a new descriptor goes to. */
  ghost predicate FreeSlot(fds: seq<int>, k: nat) {
    1 <= k < |fds| && fds[k] < 0 && forall j :: 1 <= j < k ==> fds[j] >= 0
  }

  lemma PlaceMeans(fds: seq<int>, fd: int)
    requires |fds| > 0
    ensures forall k: nat :: FreeSlot(fds, k) ==>
              1 <= k < |fds| && Place(fds, fd) == fds[k := fd] && FirstFree(fds, 1) == k
    ensures (forall k: nat :: !FreeSlot(fds, k)) ==> Place(fds, fd) == fds && FirstFree(fds, 1) == |fds|
  {
    var f := FirstFree(fds, 1);
    assert f < |fds| ==> FreeSlot(fds, f);
  }

  /** A wake-up: the descriptor accepted, if any, takes the first free slot or is
      refused, then the connections reported are handled; after a failed accept
      nothing is done. */
  ghost predicate WakeHandled(fds: seq<int>, w: Wake, log: seq<Served>, refused: bool, fds': seq<int>)
    requires |fds| == |w.ready| == |w.outcomes|
  {
    if w.listener != Pending then !refused && Handled(fds, w, 1, log, fds')
    else if w.accepted < 0 then !refused && log == [] && fds' == fds
    else
      && (forall k: nat :: FreeSlot(fds, k) ==> !refused && Handled(fds[k := w.accepted], w, 1, log, fds'))
      && ((forall k: nat :: !FreeSlot(fds, k)) ==> refused && Handled(fds, w, 1, log, fds'))
  }

  lemma RoundHandles(fds: seq<int>, w: Wake)
    requires 0 < |fds| == |w.ready| == |w.outcomes|
    ensures var (fds', log, refused) := Round(fds, w);
            WakeHandled(fds, w, log, refused, fds')
  {
    hide FullScan, Handled, Place, FirstFree, FreeSlot;
    PlaceMeans(fds, w.accepted);
    ScanHandles(fds, w, 1);
    ScanHandles(Place(fds, w.accepted), w, 1);
    assert (exists k: nat :: FreeSlot(fds, k)) || (forall k: nat :: !FreeSlot(fds, k));
  }

  // ---------------------------------------------------------------- the program

  /** `text` with its first `i` bytes raised. */
  function RaisedTo(text: seq<byte>, i: nat): (r: seq<byte>)
    requires i <= |text|
    ensures |r| == |text|
    ensures NUL !in text ==> NUL !in r
  {
    assert forall k :: 0 <= k < |text| ==> text[k] in text;
    UpperAll(text[..i]) + text[i..]
  }

  lemma RaisedNext(text: seq<byte>, i: nat)
    requires i < |text|
    ensures RaisedTo(text, i)[i] == text[i]
    ensures RaisedTo(text, i + 1) == RaisedTo(text, i)[i := Upper(text[i])]
  {
    assert text[..i + 1] == text[..i] + [text[i]];
    UpperSnoc(text[..i], text[i]);
  }

  lemma RaisedEnds(text: seq<byte>)
    ensures RaisedTo(text, 0) == text && RaisedTo(text, |text|) == UpperAll(text)
  {
    assert text[..|text|] == text;
  }

  lemma {:induction false} TextIs(text: seq<byte>, behind: seq<byte>)
    requires NUL !in text && (behind == [] || behind[0] == NUL)
    ensures CString(text + behind) == text
  {
    if text == [] {
      assert text + behind == behind;
    } else {
      TextIs(text[1..], behind);
      assert (text + behind)[1..] == text[1..] + behind;
    }
  }

  /** The zero-filled buffer is raised in place up to its terminator, which is
      looked for again at every turn. */
  method RaiseText(buff: array<byte>, ghost text: seq<byte>, ghost behind: seq<byte>)
    requires buff[..] == text + behind && NUL !in text && (behind == [] || behind[0] == NUL)
    modifies buff
    ensures buff[..] == UpperAll(text) + behind
    ensures Raised(buff[..|text|], text) && buff[|text|..] == behind
  {
    UpperRaises(text);
    hide UpperAll, CString, RaisedTo;
    var i := 0;
    RaisedEnds(text);
    TextIs(text, behind);
    while i < |CString(buff[..])|
      invariant i <= |text| && buff[..] == RaisedTo(text, i) + behind
      invariant |CString(buff[..])| == |text|
    {
      RaisedNext(text, i);
      buff[i] := Upper(buff[i]);
      i := i + 1;
      assert buff[..] == RaisedTo(text, i) + behind;
      TextIs(RaisedTo(text, i), behind);
    }
  }

  /** What comes back for one `recv`. */
  method Answer(bytes: seq<byte>) returns (reply: seq<byte>)
    requires |bytes| <= BUFFSIZE
    ensures reply == UpperAll(CString(bytes)) && Raised(reply, CString(bytes))
  {
    var buff := new byte[BUFFSIZE](_ => NUL);
    forall k | 0 <= k < |bytes| {
      buff[k] := bytes[k];
    }
    ghost var text := CString(bytes);
    ghost var behind := buff[|text|..];
    assert buff[..] == text + behind && (behind == [] || behind[0] == NUL);
    hide CString, UpperAll, RaisedTo;
    RaiseText(buff, text, behind);
    RaisedEnds(text);
    TextIs(RaisedTo(text, |text|), behind);
    reply := CString(buff[..]);
    UpperRaises(text);
  }

  class Server {
    const eventSet: array<int>

    ghost predicate Valid()
      reads this, eventSet
    {
      Table(eventSet[..])
    }

    constructor (listener: int)
      requires listener >= 0
      ensures Valid() && fresh(eventSet)
      ensures eventSet[0] == listener && forall i :: 1 <= i < POLLSIZE ==> eventSet[i] == -1
    {
      eventSet := new int[POLLSIZE](i => if i == 0 then listener else -1);
    }

    method Allocate(fd: int) returns (full: bool)
      requires Valid()
      modifies eventSet
      ensures eventSet[..] == Place(old(eventSet[..]), fd)
      ensures full == (FirstFree(old(eventSet[..]), 1) == POLLSIZE)
      ensures forall k: nat :: FreeSlot(old(eventSet[..]), k) ==> !full && eventSet[..] == old(eventSet[..])[k := fd]
      ensures (forall k: nat :: !FreeSlot(old(eventSet[..]), k)) ==> full && eventSet[..] == old(eventSet[..])
    {
      PlaceMeans(eventSet[..], fd);
      hide FreeSlot;
      var i := 1;
      while i < POLLSIZE
        invariant 1 <= i <= POLLSIZE && eventSet[..] == old(eventSet[..])
        invariant FirstFree(eventSet[..], i) == FirstFree(eventSet[..], 1)
      {
        if eventSet[i] < 0 {
          eventSet[i] := fd;
          break;
        }
        i := i + 1;
      }
      full := i == POLLSIZE;
    }

    /** What the scan does for one slot that was reported. */
    method ServeSlot(i: nat, o: Outcome) returns (s: Served)
      requires i < eventSet.Length && (o.Data? ==> |o.bytes| <= BUFFSIZE)
      modifies eventSet
      ensures s == Serve(old(eventSet[i]), i, o)
      ensures eventSet[..] == if o.Gone? then old(eventSet[..])[i := -1] else old(eventSet[..])
    {
      if o.Data? {
        var reply := Answer(o.bytes);
        s := Echoed(i, eventSet[i], reply);
      } else {
        s := Dropped(i, eventSet[i]);
        eventSet[i] := -1;
      }
    }

    /** The scan over the connections that stops once `ready` reports are used
        up, although it only counts them down. */
    method ScanConnections(w: Wake, ready: int) returns (log: seq<Served>)
      requires Valid() && Polled(eventSet[..], w) && ready >= ReadyFrom(eventSet[..], w, 1)
      modifies eventSet
      ensures (eventSet[..], log) == FullScan(old(eventSet[..]), w, 1)
      ensures Handled(old(eventSet[..]), w, 1, log, eventSet[..])
    {
      ScanHandles(eventSet[..], w, 1);
      hide Handled, FullScan, ReadyFrom, Serve;
      var retval := ready;
      log := [];
      var i := 1;
      ghost var goal := FullScan(eventSet[..], w, 1);
      assert log + goal.1 == goal.1;
      while i < POLLSIZE
        invariant 1 <= i <= POLLSIZE && eventSet.Length == POLLSIZE
        invariant retval >= ReadyFrom(eventSet[..], w, i)
        invariant FullScan(eventSet[..], w, i).0 == goal.0
        invariant log + FullScan(eventSet[..], w, i).1 == goal.1
      {
        ghost var fds := eventSet[..];
        ScanTurn(fds, w, i, log);
        if eventSet[i] < 0 {
          i := i + 1;
          continue;
        }
        if w.ready[i] {
          retval := retval - 1;
          var s := ServeSlot(i, w.outcomes[i]);
          log := log + [s];
          ReadyUnchanged(fds, w, i, -1, i + 1);
        }
        i := i + 1;
        if retval <= 0 {
          NothingReady(eventSet[..], w, i);
          assert log + [] == log;
          return;
        }
      }
      ScanEnds(eventSet[..], w);
      assert log + [] == log;
    }

    /** One turn of the loop after `poll` returned `retval`. */
    method HandleWake(w: Wake, retval: int) returns (log: seq<Served>, refused: bool)
      requires Valid() && Polled(eventSet[..], w) && retval >= Retval(eventSet[..], w)
      modifies eventSet
      ensures Valid()
      ensures (eventSet[..], log, refused) == Round(old(eventSet[..]), w)
      ensures WakeHandled(old(eventSet[..]), w, log, refused, eventSet[..])
    {
      RoundHandles(eventSet[..], w);
      hide Handled, WakeHandled, FreeSlot;
      ghost var fds := eventSet[..];
      refused := false;
      var left := retval;
      if w.listener == Pending {
        if w.accepted < 0 {
          return [], false;
        }
        left := left - 1;
        refused := Allocate(w.accepted);
        var k := FirstFree(fds, 1);
        if k < POLLSIZE {
          ReadyUnchanged(fds, w, k, w.accepted, 1);
        }
      }
      ScanKeepsTable(eventSet[..], w, 1);
      log := ScanConnections(w, left);
    }
  }

  lemma ScanEnds(fds: seq<int>, w: Wake)
    requires |fds| == |w.ready| == |w.outcomes|
    ensures FullScan(fds, w, |fds|) == (fds, [])
  {
  }

  lemma ScanTurn(fds: seq<int>, w: Wake, i: nat, log: seq<Served>)
    requires i < |fds| == |w.ready| == |w.outcomes|
    ensures ReadyFrom(fds, w, i) == ReadyFrom(fds, w, i + 1) + if Ready(fds, w, i) then 1 else 0
    ensures var all := FullScan(fds, w, i);
            if !Ready(fds, w, i) then all == FullScan(fds, w, i + 1)
            else
              var rest := FullScan(if w.outcomes[i].Gone? then fds[i := -1] else fds, w, i + 1);
              all.0 == rest.0 && log + all.1 == log + [Serve(fds[i], i, w.outcomes[i])] + rest.1
  {
    if Ready(fds, w, i) {
      var rest := FullScan(if w.outcomes[i].Gone? then fds[i := -1] else fds, w, i + 1);
      assert log + ([Serve(fds[i], i, w.outcomes[i])] + rest.1) == log + [Serve(fds[i], i, w.outcomes[i])] + rest.1;
    }
  }

  /** Slots below the scan, the listener's among them, are left alone. */
  lemma {:induction false} ScanKeepsTable(fds: seq<int>, w: Wake, i: nat)
    requires i <= |fds| == |w.ready| == |w.outcomes|
    ensures forall j :: 0 <= j < i ==> FullScan(fds, w, i).0[j] == fds[j]
    decreases |fds| - i
  {
    if i < |fds| {
      ScanKeepsTable(if Ready(fds, w, i) && w.outcomes[i].Gone? then fds[i := -1] else fds, w, i + 1);
    }
  }

  // ---------------------------------------------------------------- descriptors over whole runs

  function Count(s: seq<int>, fd: int): nat {
    if s == [] then 0 else Count(s[1..], fd) + if s[0] == fd then 1 else 0
  }

  lemma {:induction false} CountAppend(a: seq<int>, b: seq<int>, fd: int)
    ensures Count(a + b, fd) == Count(a, fd) + Count(b, fd)
  {
    if a == [] {
      assert a + b == b;
    } else {
      CountAppend(a[1..], b, fd);
      assert (a + b)[1..] == a[1..] + b;
    }
  }

  lemma {:induction false} CountUpdate(s: seq<int>, k: nat, new': int, fd: int)
    requires k < |s|
    ensures Count(s[k := new'], fd) == Count(s, fd) - (if s[k] == fd then 1 else 0) + (if new' == fd then 1 else 0)
  {
    if k == 0 {
      assert s[0 := new'][1..] == s[1..];
    } else {
      CountUpdate(s[1..], k - 1, new', fd);
      assert s[k := new'][1..] == s[1..][k - 1 := new'];
    }
  }

  /** The descriptors a scan closed. */
  function ClosedBy(log: seq<Served>): seq<int> {
    if log == [] then []
    else (if log[0].Dropped? then [log[0].fd] else []) + ClosedBy(log[1..])
  }

  /** Open descriptors, the listener's among them, are all different. */
  ghost predicate Distinct(fds: seq<int>) {
    forall i, j :: 0 <= i < j < |fds| && fds[i] >= 0 ==> fds[i] != fds[j]
  }

  lemma {:induction false} CountDistinct(fds: seq<int>, fd: int)
    requires Distinct(fds) && fd >= 0
    ensures Count(fds, fd) == if fd in fds then 1 else 0
  {
    if fds != [] {
      assert forall i, j :: 0 <= i < j < |fds[1..]| ==> fds[1..][i] == fds[i + 1] && fds[1..][j] == fds[j + 1];
      CountDistinct(fds[1..], fd);
      assert fd in fds <==> fd == fds[0] || fd in fds[1..];
    }
  }

  /** A scan closes exactly the descriptors that disappear from the table. */
  lemma {:induction false} ScanConserves(fds: seq<int>, w: Wake, i: nat, fd: int)
    requires i <= |fds| == |w.ready| == |w.outcomes| && Distinct(fds) && fd >= 0
    ensures Count(fds, fd) == Count(FullScan(fds, w, i).0, fd) + Count(ClosedBy(FullScan(fds, w, i).1), fd)
    ensures Distinct(FullScan(fds, w, i).0)
    decreases |fds| - i
  {
    if i < |fds| {
      var closes := Ready(fds, w, i) && w.outcomes[i].Gone?;
      var fds' := if closes then fds[i := -1] else fds;
      ScanConserves(fds', w, i + 1, fd);
      CountUpdate(fds, i, -1, fd);
      if Ready(fds, w, i) {
        var log, rest := FullScan(fds, w, i).1, FullScan(fds', w, i + 1).1;
        assert log[1..] == rest;
        assert ClosedBy(log) == (if closes then [fds[i]] else []) + ClosedBy(rest);
        CountAppend(if closes then [fds[i]] else [], ClosedBy(rest), fd);
      }
    }
  }

  /** The server since its start: everything accepted and everything closed. */
  datatype History = History(fds: seq<int>, accepted: seq<int>, closed: seq<int>)

  function Accepted(w: Wake): seq<int> {
    if w.listener == Pending && w.accepted >= 0 then [w.accepted] else []
  }

  function Step(h: History, w: Wake): History
    requires 0 < |h.fds| == |w.ready| == |w.outcomes|
  {
    var (fds, log, refused) := Round(h.fds, w);
    History(fds, h.accepted + Accepted(w), h.closed + ((if refused then Accepted(w) else []) + ClosedBy(log)))
  }

  /** `accept` returns a descriptor that is not open at that time. */
  ghost predicate NewDescriptor(h: History, w: Wake) {
    Accepted(w) != [] ==> w.accepted !in h.fds
  }

  ghost predicate Run(states: seq<History>, wakes: seq<Wake>, listener: int) {
    && |states| == |wakes| + 1 && listener >= 0
    && states[0] == History([listener] + seq(POLLSIZE - 1, i => -1), [], [])
    && forall t :: 0 <= t < |wakes| ==>
         Table(states[t].fds) && Polled(states[t].fds, wakes[t]) && NewDescriptor(states[t], wakes[t])
         && states[t + 1] == Step(states[t], wakes[t])
  }

  /** For descriptor `fd`: as often accepted (or being the listener) as closed,
      plus one while it is in a slot. */
  ghost predicate Balanced(h: History, listener: int, fd: int) {
    && Table(h.fds) && h.fds[0] == listener && Distinct(h.fds)
    && Count(h.accepted, fd) + (if fd == listener then 1 else 0) == Count(h.fds, fd) + Count(h.closed, fd)
  }

  lemma PlaceConserves(fds: seq<int>, new': int, fd: int)
    requires |fds| > 0 && new' >= 0 && new' !in fds && Distinct(fds) && fd >= 0
    ensures Distinct(Place(fds, new')) && Place(fds, new')[0] == fds[0]
    ensures Count(Place(fds, new'), fd)
         == Count(fds, fd) + if fd == new' && FirstFree(fds, 1) < |fds| then 1 else 0
  {
    var k := FirstFree(fds, 1);
    if k < |fds| {
      CountUpdate(fds, k, new', fd);
    }
  }

  lemma BalancedStep(h: History, w: Wake, listener: int, fd: int)
    requires Balanced(h, listener, fd) && fd >= 0 && Polled(h.fds, w) && NewDescriptor(h, w)
    ensures Balanced(Step(h, w), listener, fd)
  {
    hide FullScan, ClosedBy, Place;
    var (fds, log, refused) := Round(h.fds, w);
    var back := if refused then Accepted(w) else [];
    CountAppend(h.accepted, Accepted(w), fd);
    CountAppend(h.closed, back + ClosedBy(log), fd);
    CountAppend(back, ClosedBy(log), fd);
    if w.listener == Pending && w.accepted < 0 {
      NoneClosed(h.closed);
    } else {
      var fds1 := if w.listener == Pending then Place(h.fds, w.accepted) else h.fds;
      if w.listener == Pending {
        PlaceConserves(h.fds, w.accepted, fd);
      }
      ScanConserves(fds1, w, 1, fd);
      ScanKeepsTable(fds1, w, 1);
    }
  }

  lemma NoneClosed(closed: seq<int>)
    ensures ClosedBy([]) == [] && closed + [] == closed
  {
  }

  /** In every run and at every moment: the listener stays in slot 0, open
      descriptors are in different slots, and every other descriptor was accepted
      as often as it was closed, plus one if it is in a slot now. */
  lemma {:induction false} DescriptorsBalanced(states: seq<History>, wakes: seq<Wake>, listener: int, t: nat, fd: int)
    requires Run(states, wakes, listener) && t < |states| && fd >= 0
    ensures Balanced(states[t], listener, fd)
    ensures fd != listener ==>
              Count(states[t].accepted, fd) == Count(states[t].closed, fd) + if fd in states[t].fds then 1 else 0
  {
    if t == 0 {
      NoneLive(listener, POLLSIZE - 1, fd);
    } else {
      DescriptorsBalanced(states, wakes, listener, t - 1, fd);
      BalancedStep(states[t - 1], wakes[t - 1], listener, fd);
      assert states[t - 1 + 1] == Step(states[t - 1], wakes[t - 1]);
    }
    CountDistinct(states[t].fds, fd);
  }

  lemma NoneLive(listener: int, n: nat, fd: int)
    requires fd >= 0
    ensures Count([listener] + seq(n, i => -1), fd) == if fd == listener then 1 else 0
  {
    var free := seq(n, i => -1);
    CountAppend([listener], free, fd);
    FreeCount(free, fd);
  }

  lemma {:induction false} FreeCount(free: seq<int>, fd: int)
    requires fd >= 0 && forall i :: 0 <= i < |free| ==> free[i] == -1
    ensures Count(free, fd) == 0
  {
    if free != [] {
      FreeCount(free[1..], fd);
    }
  }
}
