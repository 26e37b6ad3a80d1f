/** A forwarding thread that scans the slot table while logins and logouts go on.
    It looks at a slot three times: at `online`, then at `name`, then at `fd`. */
module Forwarding {
  import opened Bytes
  import opened Chat
  import opened ChatServer
  import Login

  datatype Phase = TestOnline | TestName | Sending

  datatype Scan = Scan(msg: Msg, i: nat, phase: Phase, log: seq<Delivery>, returned: bool)

  datatype System = System(room: Login.Room, scan: Scan)

  datatype Event = Other(e: Login.Event) | Look

  predicate Finished(s: System) {
    s.scan.returned || s.scan.i >= |s.room.slots|
  }

  function NextSlot(c: Scan): Scan {
    c.(i := c.i + 1, phase := TestOnline)
  }

  /** The thread's next access, to slot `u` of the table as it is now. */
  function LookAt(c: Scan, u: User): Scan {
    match c.phase
    case TestOnline => if u.online then c.(phase := TestName) else NextSlot(c)
    case TestName => if Picks(c.msg, u.name) then c.(phase := Sending) else NextSlot(c)
    case Sending =>
      var c' := NextSlot(c.(log := c.log + [Delivery(c.i, u.fd, Forwarded(c.msg))]));
      if OneShot(c.msg) then c'.(returned := true) else c'
  }

  predicate Enabled(s: System, e: Event) {
    match e
    case Other(e) => Login.Enabled(s.room, e)
    case Look => !Finished(s)
  }

  function Step(s: System, e: Event): System
    requires Enabled(s, e)
  {
    match e
    case Other(e) => s.(room := Login.Step(s.room, e))
    case Look => s.(scan := LookAt(s.scan, s.room.slots[s.scan.i]))
  }

  /** A scan for `msg` started in some reachable state of the room. */
  ghost predicate Run(states: seq<System>, events: seq<Event>, msg: Msg) {
    && |states| == |events| + 1
    && Login.Inv(states[0].room) && states[0].scan == Scan(msg, 0, TestOnline, [], false)
    && forall t :: 0 <= t < |events| ==> Enabled(states[t], events[t]) && states[t + 1] == Step(states[t], events[t])
  }

  lemma RoomInvStep(s: System, e: Event)
    requires Enabled(s, e) && Login.Inv(s.room)
    ensures Login.Inv(Step(s, e).room) && |Step(s, e).room.slots| == |s.room.slots|
    ensures Step(s, e).scan.msg == s.scan.msg
  {
    match e
    case Other(e) => Login.InvStep(s.room, e);
    case Look =>
  }

  // ---------------------------------------------------------------- order

  /** Slots are served in order, below the scan position. */
  ghost predicate Ordered(c: Scan) {
    Increasing(c.log) && forall d :: d in c.log ==> d.sub < c.i
  }

  /** Whatever happens to the table meanwhile, and for every kind of message: the
      copies go out in slot order, so no slot index gets two. */
  lemma {:induction false} OrderedAlways(states: seq<System>, events: seq<Event>, msg: Msg, t: nat)
    requires Run(states, events, msg) && t < |states|
    ensures Ordered(states[t].scan) && states[t].scan.msg == msg
  {
    hide Step;
    if t > 0 {
      OrderedAlways(states, events, msg, t - 1);
      OrderedStep(states[t - 1], events[t - 1]);
      assert states[t - 1 + 1] == Step(states[t - 1], events[t - 1]);
    }
  }

  lemma OrderedStep(s: System, e: Event)
    requires Enabled(s, e) && Ordered(s.scan)
    ensures Ordered(Step(s, e).scan) && Step(s, e).scan.msg == s.scan.msg
  {
  }

  // ---------------------------------------------------------------- broadcasts

  /** Slot `k`, holding `u`, has its copy exactly when the scan is past it. */
  ghost predicate Copied(c: Scan, k: nat, u: User) {
    && !c.returned && (c.phase == Sending && c.i == k ==> Picks(c.msg, u.name))
    && (Delivery(k, u.fd, Forwarded(c.msg)) in c.log <==> k < c.i && Picks(c.msg, u.name))
    && (forall d :: d in c.log && d.sub == k ==> d == Delivery(k, u.fd, Forwarded(c.msg)))
  }

  lemma BroadcastStep(s: System, e: Event, k: nat, u: User)
    requires Enabled(s, e) && !OneShot(s.scan.msg)
    requires k < |s.room.slots| && s.room.slots[k] == u && u.online
    requires Ordered(s.scan) && Copied(s.scan, k, u)
    ensures Copied(Step(s, e).scan, k, u)
  {
    var c, c' := s.scan, Step(s, e).scan;
    if e.Look? && c.phase == Sending {
      var d := Delivery(c.i, s.room.slots[c.i].fd, Forwarded(c.msg));
      assert c'.log == c.log + [d];
      assert forall x :: x in c'.log <==> x in c.log || x == d;
    }
  }

  /** A broadcast in any interleaving: a slot that stays as it is, online, gets
      its one copy exactly when its name is not the sender's. */
  lemma {:induction false} BroadcastOnce(states: seq<System>, events: seq<Event>, msg: Msg, k: nat, u: User, t: nat)
    requires Run(states, events, msg) && (msg.flag == PUBLIC || msg.flag == NOTICE) && t < |states|
    requires u.online
    requires forall t :: 0 <= t < |states| ==> k < |states[t].room.slots| && states[t].room.slots[k] == u
    ensures Copied(states[t].scan, k, u)
    ensures Finished(states[t]) ==>
              (Delivery(k, u.fd, msg) in states[t].scan.log <==> u.name != msg.from)
  {
    hide Step, Ordered;
    OrderedAlways(states, events, msg, t);
    if t > 0 {
      BroadcastOnce(states, events, msg, k, u, t - 1);
      OrderedAlways(states, events, msg, t - 1);
      BroadcastStep(states[t - 1], events[t - 1], k, u);
      assert states[t - 1 + 1] == Step(states[t - 1], events[t - 1]);
    }
  }

  // ---------------------------------------------------------------- private messages and list requests

  /** Whom a private message, or the answer to a list request, is meant for. */
  predicate MeantFor(msg: Msg, name: seq<byte>) {
    (msg.flag == PRIVATE && msg.to == name) || (msg.flag == LIST && msg.from == name)
  }

  /** The scan has not passed slot `k` without serving it. */
  ghost predicate Aiming(c: Scan, k: nat, u: User) {
    if c.returned then c.log == [Delivery(k, u.fd, Forwarded(c.msg))]
    else c.log == [] && c.i <= k && (c.phase == Sending ==> c.i == k)
  }

  /** Below a published slot no slot carries its name at any time, so a name that
      changes between two looks at such a slot cannot mislead the scan. */
  lemma AimingStep(s: System, e: Event, k: nat, u: User)
    requires Enabled(s, e) && MeantFor(s.scan.msg, u.name)
    requires Login.Inv(s.room)
    requires k < |s.room.slots| && s.room.slots[k] == u && Login.Published(s.room, k)
    requires Aiming(s.scan, k, u)
    ensures Aiming(Step(s, e).scan, k, u)
  {
  }

  /** Slot `k` holds `u`, published, all the time. */
  ghost predicate Stays(states: seq<System>, k: nat, u: User) {
    forall t :: 0 <= t < |states| ==>
      k < |states[t].room.slots| && states[t].room.slots[k] == u && Login.Published(states[t].room, k)
  }

  lemma {:induction false} OneShotOnce(states: seq<System>, events: seq<Event>, msg: Msg, k: nat, u: User, t: nat)
    requires Run(states, events, msg) && MeantFor(msg, u.name) && t < |states| && Stays(states, k, u)
    ensures states[t].scan.msg == msg && Login.Inv(states[t].room) && Aiming(states[t].scan, k, u)
    ensures Finished(states[t]) ==> states[t].scan.log == [Delivery(k, u.fd, Forwarded(msg))]
  {
    if t > 0 {
      OneShotOnce(states, events, msg, k, u, t - 1);
      assert states[t - 1 + 1] == Step(states[t - 1], events[t - 1]);
      RoomInvStep(states[t - 1], events[t - 1]);
      AimingStep(states[t - 1], events[t - 1], k, u);
    }
  }

  /** A private message in any interleaving goes to exactly the slot that is online
      under the recipient's name throughout, once, provided that name is its
      user's: the slot is not the one whose login is just being published. */
  lemma PrivateOnce(states: seq<System>, events: seq<Event>, msg: Msg, k: nat, u: User, t: nat)
    requires Run(states, events, msg) && msg.flag == PRIVATE && msg.to == u.name && t < |states|
    requires Stays(states, k, u)
    ensures states[t].scan.msg == msg && Login.Inv(states[t].room) && Aiming(states[t].scan, k, u)
    ensures states[t].scan.log == [] || states[t].scan.log == [Delivery(k, u.fd, msg)]
    ensures Finished(states[t]) ==> states[t].scan.log == [Delivery(k, u.fd, msg)]
  {
    OneShotOnce(states, events, msg, k, u, t);
  }

  /** And the answer to a list request goes, once, to exactly the slot that is online
      under the name of the user who made it. */
  lemma ListOnce(states: seq<System>, events: seq<Event>, msg: Msg, k: nat, u: User, t: nat)
    requires Run(states, events, msg) && msg.flag == LIST && msg.from == u.name && t < |states|
    requires Stays(states, k, u)
    ensures var answer := Delivery(k, u.fd, Msg(msg.from, msg.to, NOTICE, LIST_TEXT));
            && (states[t].scan.log == [] || states[t].scan.log == [answer])
            && (Finished(states[t]) ==> states[t].scan.log == [answer])
  {
    OneShotOnce(states, events, msg, k, u, t);
  }

  /** A slot's name is only ever written while the slot is online. */
  lemma RenamedIsOnline(r: Login.Room, e: Login.Event, j: nat)
    requires Login.Enabled(r, e) && j < |r.slots|
    ensures var r' := Login.Step(r, e);
            |r'.slots| == |r.slots|
            && (r'.slots[j].name == r.slots[j].name
                || (r.main.SettingName? && r.main.sub == j && r'.slots[j].online == r.slots[j].online))
  {
  }

  /** The scan has sent nothing and is not about to. */
  ghost predicate Missing(s: System, name: seq<byte>) {
    && s.scan.log == [] && !s.scan.returned && s.scan.phase != Sending
    && (s.scan.phase == TestName ==> s.scan.i < |s.room.slots| && s.room.slots[s.scan.i].name != name)
  }

  lemma {:induction false} OneShotToNobody(states: seq<System>, events: seq<Event>, msg: Msg, name: seq<byte>, t: nat)
    requires Run(states, events, msg) && MeantFor(msg, name) && t < |states|
    requires forall t :: 0 <= t < |states| ==> Login.NobodyBut(states[t].room.slots, name, -1)
    ensures states[t].scan.msg == msg && Login.Inv(states[t].room) && Missing(states[t], name)
  {
    if t > 0 {
      OneShotToNobody(states, events, msg, name, t - 1);
      var s, e := states[t - 1], events[t - 1];
      assert states[t - 1 + 1] == Step(s, e);
      RoomInvStep(s, e);
      MissingStep(s, e, name);
    }
  }

  /** And to nobody while no slot is online under that name, although slots of
      former users may still carry it. */
  lemma PrivateToNobody(states: seq<System>, events: seq<Event>, msg: Msg, t: nat)
    requires Run(states, events, msg) && msg.flag == PRIVATE && t < |states|
    requires forall t :: 0 <= t < |states| ==> Login.NobodyBut(states[t].room.slots, msg.to, -1)
    ensures states[t].scan.msg == msg && Login.Inv(states[t].room) && Missing(states[t], msg.to)
    ensures states[t].scan.log == []
  {
    OneShotToNobody(states, events, msg, msg.to, t);
  }

  /** A list request of a user who is not online is not answered. */
  lemma ListToNobody(states: seq<System>, events: seq<Event>, msg: Msg, t: nat)
    requires Run(states, events, msg) && msg.flag == LIST && t < |states|
    requires forall t :: 0 <= t < |states| ==> Login.NobodyBut(states[t].room.slots, msg.from, -1)
    ensures states[t].scan.log == []
  {
    OneShotToNobody(states, events, msg, msg.from, t);
  }

  lemma MissingStep(s: System, e: Event, name: seq<byte>)
    requires Enabled(s, e) && MeantFor(s.scan.msg, name) && Login.Inv(s.room) && Missing(s, name)
    requires Login.NobodyBut(s.room.slots, name, -1)
    requires Login.NobodyBut(Step(s, e).room.slots, name, -1)
    ensures Missing(Step(s, e), name)
  {
    if e.Other? && s.scan.phase == TestName {
      RenamedIsOnline(s.room, e.e, s.scan.i);
    }
  }

  // ---------------------------------------------------------------- no interference

  /** What a scan has sent of what it must send to a table that stands still. */
  ghost predicate SentSoFar(c: Scan, slots: seq<User>) {
    && Ordered(c)
    && (forall d :: d in c.log ==> Addressed(d, slots, c.msg))
    && (c.phase != TestOnline && !c.returned ==> c.i < |slots| && slots[c.i].online)
    && (c.phase == Sending ==> c.i < |slots| && Picks(c.msg, slots[c.i].name))
    && (forall j :: 0 <= j < c.i && j < |slots| && slots[j].online && Picks(c.msg, slots[j].name) ==> Served(c.log, j))
    && (if c.returned then OneShot(c.msg) && |c.log| == 1 else OneShot(c.msg) ==> c.log == [])
  }

  lemma StillStep(c: Scan, slots: seq<User>)
    requires SentSoFar(c, slots) && !c.returned && c.i < |slots|
    ensures SentSoFar(LookAt(c, slots[c.i]), slots)
  {
    if c.phase == Sending {
      ServedMore(c.log, Delivery(c.i, slots[c.i].fd, Forwarded(c.msg)));
    }
  }

  /** While nobody writes the table, the stepwise scan does what the loop does. */
  lemma {:induction false} StillRun(states: seq<System>, events: seq<Event>, msg: Msg, slots: seq<User>, t: nat)
    requires Run(states, events, msg) && t < |states|
    requires forall t :: 0 <= t < |states| ==> states[t].room.slots == slots
    ensures states[t].scan.msg == msg && SentSoFar(states[t].scan, slots)
    ensures Finished(states[t]) ==> Delivers(states[t].scan.log, slots, msg)
  {
    if t > 0 {
      StillRun(states, events, msg, slots, t - 1);
      var s, e := states[t - 1], events[t - 1];
      assert states[t - 1 + 1] == Step(s, e);
      if e.Look? {
        StillStep(s.scan, slots);
      }
    }
    var c := states[t].scan;
    if Finished(states[t]) {
      forall i | 0 <= i < |slots| && slots[i].online && Picks(msg, slots[i].name) && !Served(c.log, i)
        ensures OneShot(msg) && c.log != [] && c.log[0].sub < i
      {
        assert c.log[0] in c.log;
      }
    }
  }

  // ---------------------------------------------------------------- from the keyboard to the recipient

  /** What a log that `msg_forward` produces in some reachable state must be, for a
      message meant for `name` that goes out as `copy`: the published slot online under
      that name gets it; without such a slot the slot being logged in gets it if it
      still carries the name of a former user, and otherwise nobody does. */
  ghost predicate Directed(r: Login.Room, log: seq<Delivery>, name: seq<byte>, copy: Msg) {
    && (forall k :: 0 <= k < |r.slots| && Login.Published(r, k) && r.slots[k].name == name ==>
          log == [Delivery(k, r.slots[k].fd, copy)])
    && (Unpublished(r, name) ==>
          (log == [] <==> forall h :: 0 <= h < |r.slots| && Login.HalfPublished(r, h) ==> r.slots[h].name != name))
    && (Unpublished(r, name) ==>
          forall h :: 0 <= h < |r.slots| && Login.HalfPublished(r, h) && r.slots[h].name == name ==>
            && log == [Delivery(h, r.slots[h].fd, copy)]
            && (r.main.SettingName? ==> r.slots[h].fd == r.main.fd))
  }

  ghost predicate Unpublished(r: Login.Room, name: seq<byte>) {
    forall k :: 0 <= k < |r.slots| && Login.Published(r, k) ==> r.slots[k].name != name
  }

  lemma OneShotDirected(r: Login.Room, log: seq<Delivery>, msg: Msg, name: seq<byte>)
    requires Login.Inv(r) && MeantFor(msg, name) && Delivers(log, r.slots, msg)
    ensures Directed(r, log, name, Forwarded(msg))
  {
    if log != [] {
      assert log[0] in log;
    }
    forall k | 0 <= k < |r.slots| && Login.Published(r, k) && r.slots[k].name == name
      ensures log == [Delivery(k, r.slots[k].fd, Forwarded(msg))]
    {
      if Served(log, k) {
        var d :| d in log && d.sub == k;
      }
    }
    forall h | log == [] && 0 <= h < |r.slots| && Login.HalfPublished(r, h)
      ensures r.slots[h].name != name
    {
      assert !Served(log, h);
    }
  }

  /** For the message the client made of the typed line `@to body`: the published slot
      online under `to` gets the body once and nobody else does; without such a slot
      nothing is sent exactly when the slot being logged in, if any, does not carry
      `to` from a former user, and if it does, that slot gets the body: once `fd` is
      written there, it goes to the user logging in under another name. */
  lemma PrivateEndToEnd(r: Login.Room, log: seq<Delivery>, from: seq<byte>, old': seq<byte>, to: seq<byte>,
                        body: seq<byte>)
    requires Login.Inv(r)
    requires to != [] && |to| <= NAME_MAX && SPACE !in to && NUL !in to && NUL !in body
    requires Delivers(log, r.slots, Compose(from, old', PrivateLine(to, body)))
    ensures RecipientFits(PrivateLine(to, body)) && Directed(r, log, to, Msg(from, to, PRIVATE, body))
  {
    ComposePrivate(from, old', to, body);
    OneShotDirected(r, log, Msg(from, to, PRIVATE, body), to);
  }

  /** For a typed line that starts with `#`: the answer goes back to the user who typed
      it, as a notice, in the same way. */
  lemma ListEndToEnd(r: Login.Room, log: seq<Delivery>, from: seq<byte>, old': seq<byte>, line: seq<byte>)
    requires Login.Inv(r) && line != [] && line[0] == HASH
    requires Delivers(log, r.slots, Compose(from, old', line))
    ensures Directed(r, log, from, Msg(from, old', NOTICE, LIST_TEXT))
  {
    ComposeInverse(from, old', line);
    OneShotDirected(r, log, Msg(from, old', LIST, line), from);
  }

  /** That happens, in a table of any size: `to` logs out of slot 0, `name` is being
      logged in there, and what is then sent to `to` goes to the connection of `name`. */
  lemma NewcomerReceives(size: nat, name: seq<byte>, from: seq<byte>, old': seq<byte>, to: seq<byte>, body: seq<byte>)
    returns (r: Login.Room)
    requires size > 0 && name != to
    requires to != [] && |to| <= NAME_MAX && SPACE !in to && NUL !in to && NUL !in body
    ensures Login.Reached(r, size) && r.main == Login.SettingName(name, 4, 0)
    ensures |r.slots| == size && forall i :: 0 <= i < size && r.slots[i].online ==> i == 0
    ensures forall log :: Delivers(log, r.slots, Compose(from, old', PrivateLine(to, body)))
                     <==> log == [Delivery(0, 4, Msg(from, to, PRIVATE, body))]
  {
    hide Login.Reached;
    var r0 := Login.EmptyRoom(size);
    Login.NothingReached(size);
    Login.ReachedLogin(r0, to, 3, 0, size);
    var r1 := Login.Room(r0.slots[0 := User(to, true, 3)], Login.Accepting, r0.workers + {0});
    Login.ReachedStep(r1, Login.Logout(0), size);
    var r2 := Login.Step(r1, Login.Logout(0));
    Login.ReachedWindow(r2, name, 4, 0, size);
    r := Login.Room(r2.slots[0 := User(to, true, 4)], Login.SettingName(name, 4, 0), r2.workers);
    Login.ReachedInv(r, size);
    ComposePrivate(from, old', to, body);
    OneReceiver(r.slots, 0, Msg(from, to, PRIVATE, body));
  }

  lemma OneReceiver(slots: seq<User>, k: nat, msg: Msg)
    requires msg.flag == PRIVATE && k < |slots| && slots[k].online && slots[k].name == msg.to
    requires forall i :: 0 <= i < |slots| && slots[i].online ==> i == k
    ensures forall log :: Delivers(log, slots, msg) <==> log == [Delivery(k, slots[k].fd, msg)]
  {
    forall log | Delivers(log, slots, msg)
      ensures log == [Delivery(k, slots[k].fd, msg)]
    {
      if log != [] {
        assert log[0] in log;
      }
      assert !Served(log, k) ==> log != [];
    }
    var one := [Delivery(k, slots[k].fd, msg)];
    assert one[0] in one;
    assert Served(one, k);
    assert Delivers(one, slots, msg);
  }
}
