/** The slot table while the login loop, the workers' logouts and the forwarding
    threads interleave. Every step is one access to the shared table: the login
    loop publishes `online` before `fd` and `name`, and each look at a slot
    happens in its own step. The slot number and the message a new thread is
    started with are handed over by value. */
module Login {
  import opened Bytes
  import opened Chat
  import opened ChatServer

  /** Where the login loop is. `i` is the slot its current scan looks at next. */
  datatype Main =
    | Accepting
    | Checking(name: seq<byte>, fd: int, i: nat)
    | Finding(name: seq<byte>, fd: int, i: nat)
    | Claiming(name: seq<byte>, fd: int, sub: nat)
    | SettingFd(name: seq<byte>, fd: int, sub: nat)
    | SettingName(name: seq<byte>, fd: int, sub: nat)
    | Spawning(sub: nat)

  /** `workers` are the slots whose worker thread runs and has not logged out. */
  datatype Room = Room(slots: seq<User>, main: Main, workers: set<nat>)

  datatype Event = Connect(name: seq<byte>, fd: int) | MainStep | Logout(sub: nat)

  /** Published, but still with the fields of the slot's former user. */
  predicate HalfPublished(r: Room, i: nat) {
    (r.main.SettingFd? || r.main.SettingName?) && r.main.sub == i
  }

  predicate Published(r: Room, i: nat)
    requires i < |r.slots|
  {
    r.slots[i].online && !HalfPublished(r, i)
  }

  predicate Enabled(r: Room, e: Event) {
    match e
    case Connect(_, _) => r.main == Accepting
    case Logout(i) => i in r.workers && i < |r.slots|
    case MainStep =>
      match r.main
      case Accepting => false
      case Checking(_, _, i) => i <= |r.slots|
      case Finding(_, _, i) => i < |r.slots|  // a full table is outside the model
      case Claiming(_, _, k) => k < |r.slots|
      case SettingFd(_, _, k) => k < |r.slots|
      case SettingName(_, _, k) => k < |r.slots|
      case Spawning(k) => true
  }

  function Step(r: Room, e: Event): Room
    requires Enabled(r, e)
  {
    match e
    case Connect(name, fd) => r.(main := Checking(name, fd, 0))
    case Logout(i) => r.(slots := r.slots[i := r.slots[i].(online := false)], workers := r.workers - {i})
    case MainStep =>
      match r.main
      case Checking(name, fd, i) =>
        if i == |r.slots| then r.(main := Finding(name, fd, 0))
        else if OnlineAs(r.slots[i], name) then r.(main := Accepting)
        else r.(main := Checking(name, fd, i + 1))
      case Finding(name, fd, i) =>
        r.(main := if r.slots[i].online then Finding(name, fd, i + 1) else Claiming(name, fd, i))
      case Claiming(name, fd, k) =>
        r.(slots := r.slots[k := r.slots[k].(online := true)], main := SettingFd(name, fd, k))
      case SettingFd(name, fd, k) =>
        r.(slots := r.slots[k := r.slots[k].(fd := fd)], main := SettingName(name, fd, k))
      case SettingName(name, fd, k) =>
        r.(slots := r.slots[k := r.slots[k].(name := name)], main := Spawning(k))
      case Spawning(k) =>
        r.(main := Accepting, workers := r.workers + {k})
  }

  function EmptyRoom(size: nat): Room {
    Room(seq(size, i => User([], false, 0)), Accepting, {})
  }

  /** One event between each two states. */
  ghost predicate Chain(states: seq<Room>, events: seq<Event>) {
    && |states| == |events| + 1
    && forall i :: 0 <= i < |events| ==> Enabled(states[i], events[i]) && states[i + 1] == Step(states[i], events[i])
  }

  ghost predicate Run(states: seq<Room>, events: seq<Event>, size: nat) {
    Chain(states, events) && states[0] == EmptyRoom(size)
  }

  ghost predicate NobodyBut(slots: seq<User>, name: seq<byte>, exempt: int) {
    forall j :: 0 <= j < |slots| && j != exempt ==> !OnlineAs(slots[j], name)
  }

  /** No two fully published online slots share a name. */
  ghost predicate UniquePublished(r: Room) {
    forall i, j | 0 <= i < j < |r.slots| && Published(r, i) && Published(r, j) :: r.slots[i].name != r.slots[j].name
  }

  /** The slot of the login in progress is online, and no worker's to log out. */
  ghost predicate Owned(r: Room, k: nat) {
    k < |r.slots| && r.slots[k].online && k !in r.workers
  }

  /** What the login loop has learned from its scans is still true. */
  ghost predicate MainKnows(r: Room) {
    match r.main
    case Accepting => true
    case Checking(name, _, i) => i <= |r.slots| && forall j :: 0 <= j < i ==> !OnlineAs(r.slots[j], name)
    case Finding(name, _, i) => i <= |r.slots| && NobodyBut(r.slots, name, -1)
    case Claiming(name, _, k) => k < |r.slots| && !r.slots[k].online && NobodyBut(r.slots, name, -1)
    case SettingFd(name, _, k) => Owned(r, k) && NobodyBut(r.slots, name, k)
    case SettingName(name, fd, k) => Owned(r, k) && r.slots[k].fd == fd && NobodyBut(r.slots, name, k)
    case Spawning(k) => Owned(r, k)
  }

  /** Workers belong to online slots, and every online slot has one, except the
      slot of the login in progress. */
  ghost predicate Staffed(r: Room) {
    && (forall i :: i in r.workers ==> i < |r.slots| && r.slots[i].online)
    && (forall i :: 0 <= i < |r.slots| && r.slots[i].online ==>
          i in r.workers || ((r.main.SettingFd? || r.main.SettingName? || r.main.Spawning?) && r.main.sub == i))
  }

  /** No slot below a published one carries its name, not even left over from a
      former user: each login takes the first free slot, so the slots below were
      online then, under other names. */
  ghost predicate LowestHolder(r: Room) {
    && (forall i, j | 0 <= i < j < |r.slots| && Published(r, j) :: r.slots[i].name != r.slots[j].name)
    && (r.main.Finding? ==> NotBelow(r.slots, r.main.name, r.main.i))
    && (r.main.Claiming? || r.main.SettingFd? || r.main.SettingName? ==> NotBelow(r.slots, r.main.name, r.main.sub))
  }

  ghost predicate NotBelow(slots: seq<User>, name: seq<byte>, n: nat) {
    forall j :: 0 <= j < n && j < |slots| ==> slots[j].name != name
  }

  ghost predicate Inv(r: Room) {
    UniquePublished(r) && MainKnows(r) && Staffed(r) && LowestHolder(r)
  }

  lemma InvStep(r: Room, e: Event)
    requires Inv(r) && Enabled(r, e)
    ensures Inv(Step(r, e))
  {
    match e
    case Connect(_, _) =>
    case Logout(_) => InvLogout(r, e);
    case MainStep => InvMain(r, e);
  }

  lemma InvLogout(r: Room, e: Event)
    requires Inv(r) && Enabled(r, e) && e.Logout?
    ensures Inv(Step(r, e))
  {
  }

  lemma InvMain(r: Room, e: Event)
    requires Inv(r) && Enabled(r, e) && e.MainStep?
    ensures Inv(Step(r, e))
  {
    hide Inv, Step;
    if r.main.Checking? || r.main.Finding? {
      InvScan(r);
    } else {
      InvPublish(r);
    }
  }

  lemma InvScan(r: Room)
    requires Inv(r) && Enabled(r, MainStep) && (r.main.Checking? || r.main.Finding?)
    ensures Inv(Step(r, MainStep))
  {
  }

  lemma InvPublish(r: Room)
    requires Inv(r) && Enabled(r, MainStep) && !r.main.Checking? && !r.main.Finding?
    ensures Inv(Step(r, MainStep))
  {
  }

  /** In every interleaving of logins and logouts, at every moment. */
  lemma {:induction false} UniqueAlways(states: seq<Room>, events: seq<Event>, size: nat, i: nat)
    requires Run(states, events, size) && i < |states|
    ensures Inv(states[i]) && |states[i].slots| == size
  {
    if i > 0 {
      UniqueAlways(states, events, size, i - 1);
      InvStep(states[i - 1], events[i - 1]);
    }
  }

  /** Outside the login loop's window no exception is needed. */
  lemma UniqueOutsideWindow(r: Room)
    requires Inv(r) && !r.main.SettingFd? && !r.main.SettingName?
    ensures Unique(r.slots)
  {
  }

  /** Inside it names can clash: all online slots have different names exactly when
      no other online slot has the name left over in the half-published one. */
  lemma WindowClashes(r: Room)
    requires Inv(r) && (r.main.SettingFd? || r.main.SettingName?)
    ensures Unique(r.slots) <==> NobodyBut(r.slots, r.slots[r.main.sub].name, r.main.sub)
  {
    var k := r.main.sub;
    if !NobodyBut(r.slots, r.slots[k].name, k) {
      var j :| 0 <= j < |r.slots| && j != k && OnlineAs(r.slots[j], r.slots[k].name);
      assert r.slots[k].online && r.slots[j].name == r.slots[k].name;
    }
  }

  // ---------------------------------------------------------------- logins without interference

  function MainSteps(r: Room, n: nat): Room
    decreases n
  {
    if n == 0 || !Enabled(r, MainStep) then r else MainSteps(Step(r, MainStep), n - 1)
  }

  lemma {:induction false} MainStepsOn(r: Room, m: nat, n: nat)
    ensures MainSteps(MainSteps(r, m), n) == MainSteps(r, m + n)
    decreases m
  {
    if m > 0 && Enabled(r, MainStep) {
      MainStepsOn(Step(r, MainStep), m - 1, n);
    } else if m > 0 {
      assert MainSteps(r, m + n) == r;
    }
  }

  lemma {:induction false} CheckScan(r: Room, name: seq<byte>, fd: int, i: nat, hit: nat)
    requires r.main == Checking(name, fd, i) && i <= hit <= |r.slots|
    requires forall j :: i <= j < hit ==> !OnlineAs(r.slots[j], name)
    requires hit < |r.slots| ==> OnlineAs(r.slots[hit], name)
    ensures MainSteps(r, hit - i + 1)
         == r.(main := if hit < |r.slots| then Accepting else Finding(name, fd, 0))
    decreases hit - i
  {
    if i < hit {
      CheckScan(Step(r, MainStep), name, fd, i + 1, hit);
    } else {
      assert MainSteps(r, 1) == MainSteps(Step(r, MainStep), 0);
    }
  }

  lemma {:induction false} FindScan(r: Room, name: seq<byte>, fd: int, i: nat, k: nat)
    requires r.main == Finding(name, fd, i) && i <= k < |r.slots| && !r.slots[k].online
    requires forall j :: i <= j < k ==> r.slots[j].online
    ensures MainSteps(r, k - i + 1) == r.(main := Claiming(name, fd, k))
    decreases k - i
  {
    if i < k {
      FindScan(Step(r, MainStep), name, fd, i + 1, k);
    } else {
      assert MainSteps(r, 1) == MainSteps(Step(r, MainStep), 0);
    }
  }

  lemma Publish(r: Room, name: seq<byte>, fd: int, k: nat)
    requires r.main == Claiming(name, fd, k) && k < |r.slots|
    ensures MainSteps(r, 4) == Room(r.slots[k := User(name, true, fd)], Accepting, r.workers + {k})
  {
    var r1 := Step(r, MainStep);
    var r2 := Step(r1, MainStep);
    var r3 := Step(r2, MainStep);
    var r4 := Step(r3, MainStep);
    assert MainSteps(r3, 1) == MainSteps(r4, 0);
    assert MainSteps(r, 4) == MainSteps(r1, 3) == MainSteps(r2, 2) == r4;
    assert r4.slots == r.slots[k := User(name, true, fd)];
  }

  /** Left alone, the login loop's steps do what one call of `Server.Login` does:
      the first free slot is taken, or, if the name is online, nothing changes. */
  lemma LoginUndisturbed(r: Room, name: seq<byte>, fd: int, k: nat)
    requires r.main == Accepting && k < |r.slots| && !r.slots[k].online
    requires forall j :: 0 <= j < k ==> r.slots[j].online
    ensures NobodyBut(r.slots, name, -1) ==>
              MainSteps(Step(r, Connect(name, fd)), |r.slots| + k + 6)
              == Room(r.slots[k := User(name, true, fd)], Accepting, r.workers + {k})
    ensures !NobodyBut(r.slots, name, -1) ==> exists n :: MainSteps(Step(r, Connect(name, fd)), n) == r
  {
    var c := Step(r, Connect(name, fd));
    if NobodyBut(r.slots, name, -1) {
      CheckScan(c, name, fd, 0, |r.slots|);
      var f := r.(main := Finding(name, fd, 0));
      FindScan(f, name, fd, 0, k);
      Publish(r.(main := Claiming(name, fd, k)), name, fd, k);
      MainStepsOn(f, k + 1, 4);
      MainStepsOn(c, |r.slots| + 1, k + 5);
    } else {
      var hit := FirstOnline(r.slots, name);
      CheckScan(c, name, fd, 0, hit);
    }
  }

  lemma {:induction false} FirstOnline(slots: seq<User>, name: seq<byte>) returns (hit: nat)
    requires !NobodyBut(slots, name, -1)
    ensures hit < |slots| && OnlineAs(slots[hit], name) && forall j :: 0 <= j < hit ==> !OnlineAs(slots[j], name)
  {
    hit := 0;
    while !OnlineAs(slots[hit], name)
      invariant hit < |slots| && forall j :: 0 <= j < hit ==> !OnlineAs(slots[j], name)
      decreases |slots| - hit
    {
      hit := hit + 1;
    }
  }

  // ---------------------------------------------------------------- reachable rooms

  ghost predicate Reached(r: Room, size: nat) {
    exists states, events :: Run(states, events, size) && states[|states| - 1] == r
  }

  lemma ReachedInv(r: Room, size: nat)
    requires Reached(r, size)
    ensures Inv(r) && |r.slots| == size
  {
    hide Inv;
    var states, events :| Run(states, events, size) && states[|states| - 1] == r;
    UniqueAlways(states, events, size, |states| - 1);
  }

  lemma ReachedStep(r: Room, e: Event, size: nat)
    requires Reached(r, size) && Enabled(r, e)
    ensures Reached(Step(r, e), size)
  {
    hide Step, Enabled;
    var states, events :| Run(states, events, size) && states[|states| - 1] == r;
    var states', events' := states + [Step(r, e)], events + [e];
    assert Run(states', events', size);
    assert states'[|states'| - 1] == Step(r, e);
  }

  lemma NothingReached(size: nat)
    ensures Reached(EmptyRoom(size), size)
  {
    var states: seq<Room>, events: seq<Event> := [EmptyRoom(size)], [];
    assert Run(states, events, size) && states[|states| - 1] == EmptyRoom(size);
  }

  lemma {:induction false} ReachedMain(r: Room, n: nat, size: nat)
    requires Reached(r, size)
    ensures Reached(MainSteps(r, n), size)
    decreases n
  {
    hide Reached;
    if n > 0 && Enabled(r, MainStep) {
      ReachedStep(r, MainStep, size);
      ReachedMain(Step(r, MainStep), n - 1, size);
    }
  }

  lemma ReachedLogin(r: Room, name: seq<byte>, fd: int, k: nat, size: nat)
    requires Reached(r, size) && r.main == Accepting && NobodyBut(r.slots, name, -1)
    requires k < |r.slots| && !r.slots[k].online && forall j :: 0 <= j < k ==> r.slots[j].online
    ensures Reached(Room(r.slots[k := User(name, true, fd)], Accepting, r.workers + {k}), size)
  {
    hide Reached, MainSteps;
    LoginUndisturbed(r, name, fd, k);
    ReachedStep(r, Connect(name, fd), size);
    ReachedMain(Step(r, Connect(name, fd)), |r.slots| + k + 6, size);
  }

  /** The same login, stopped when the slot is online but has its old name. */
  lemma ReachedWindow(r: Room, name: seq<byte>, fd: int, k: nat, size: nat)
    requires Reached(r, size) && r.main == Accepting && NobodyBut(r.slots, name, -1)
    requires k < |r.slots| && !r.slots[k].online && forall j :: 0 <= j < k ==> r.slots[j].online
    ensures Reached(Room(r.slots[k := User(r.slots[k].name, true, fd)], SettingName(name, fd, k), r.workers), size)
  {
    hide Reached, MainSteps;
    var c := Step(r, Connect(name, fd));
    var f := r.(main := Finding(name, fd, 0));
    var g := r.(main := Claiming(name, fd, k));
    ReachedStep(r, Connect(name, fd), size);
    CheckScan(c, name, fd, 0, |r.slots|);
    ReachedMain(c, |r.slots| + 1, size);
    FindScan(f, name, fd, 0, k);
    ReachedMain(f, k + 1, size);
    ReachedStep(g, MainStep, size);
    ReachedStep(Step(g, MainStep), MainStep, size);
    assert Step(Step(g, MainStep), MainStep).slots == r.slots[k := User(r.slots[k].name, true, fd)];
  }

  /** Names do clash in every table with two slots: `b` sits in slot 1, both slots
      become free, `b` returns to slot 0, and `c` is being logged in to slot 1. */
  lemma ClashReachable(size: nat, a: seq<byte>, b: seq<byte>, c: seq<byte>) returns (r: Room)
    requires size >= 2 && a != b && b != c
    ensures Reached(r, size) && |r.slots| == size && !Unique(r.slots)
    ensures r.slots[0] == User(b, true, 5) && r.slots[1] == User(b, true, 6)
  {
    hide Reached;
    NothingReached(size);
    var r0 := EmptyRoom(size);
    ReachedLogin(r0, a, 3, 0, size);
    var r1 := Room(r0.slots[0 := User(a, true, 3)], Accepting, r0.workers + {0});
    ReachedLogin(r1, b, 4, 1, size);
    var r2 := Room(r1.slots[1 := User(b, true, 4)], Accepting, r1.workers + {1});
    ReachedStep(r2, Logout(0), size);
    var r3 := Step(r2, Logout(0));
    ReachedStep(r3, Logout(1), size);
    var r4 := Step(r3, Logout(1));
    ReachedLogin(r4, b, 5, 0, size);
    var r5 := Room(r4.slots[0 := User(b, true, 5)], Accepting, r4.workers + {0});
    ReachedWindow(r5, c, 6, 1, size);
    r := Room(r5.slots[1 := User(b, true, 6)], SettingName(c, 6, 1), r5.workers);
    assert r.slots[0].name == r.slots[1].name;
  }
}
