/** The chatroom server's slot table while one thread at a time touches it:
    `find_sub`, `check_online`, the login and logout updates, `msg_forward`. */
module ChatServer {
  import opened Bytes
  import opened Chat

  const MAX_CLIENT := 512

  /** "ONLINE LIST" */
  const LIST_TEXT: seq<byte> := [79, 78, 76, 73, 78, 69, 32, 76, 73, 83, 84]

  /** One `chat_send` made by `msg_forward`. */
  datatype Delivery = Delivery(sub: nat, fd: int, msg: Msg)

  predicate OnlineAs(u: User, name: seq<byte>) {
    u.online && u.name == name
  }

  /** Which slot contents the scan for `msg` picks. */
  predicate Picks(msg: Msg, name: seq<byte>) {
    if msg.flag == PRIVATE then name == msg.to
    else if msg.flag == LIST then name == msg.from
    else (msg.flag == PUBLIC || msg.flag == NOTICE) && name != msg.from
  }

  /** Private messages and list requests stop at the first slot picked. */
  predicate OneShot(msg: Msg) {
    msg.flag == PRIVATE || msg.flag == LIST
  }

  /** What is sent: a list request is answered, everything else passed on. */
  function Forwarded(msg: Msg): Msg {
    if msg.flag == LIST then msg.(flag := NOTICE, message := LIST_TEXT) else msg
  }

  /** A copy of what must be sent, to the descriptor in an online, picked slot. */
  predicate Addressed(d: Delivery, slots: seq<User>, msg: Msg) {
    && d.sub < |slots| && slots[d.sub].online && Picks(msg, slots[d.sub].name)
    && d.fd == slots[d.sub].fd && d.msg == Forwarded(msg)
  }

  ghost predicate Increasing(log: seq<Delivery>) {
    forall a, b :: 0 <= a < b < |log| ==> log[a].sub < log[b].sub
  }

  ghost predicate Served(log: seq<Delivery>, i: nat) {
    exists d :: d in log && d.sub == i
  }

  /** `log` is what a scan of `slots` must send for `msg`: in slot order, to slots
      that are online and picked; to all of them, or to the first for a one-shot. */
  ghost predicate Delivers(log: seq<Delivery>, slots: seq<User>, msg: Msg) {
    && Increasing(log)
    && (forall d :: d in log ==> Addressed(d, slots, msg))
    && (forall i :: 0 <= i < |slots| && slots[i].online && Picks(msg, slots[i].name) && !Served(log, i)
                 ==> OneShot(msg) && log != [] && log[0].sub < i)
    && (OneShot(msg) ==> |log| <= 1)
  }

  /** No two online slots share a name. */
  ghost predicate Unique(slots: seq<User>) {
    forall i, j :: 0 <= i < j < |slots| && slots[i].online && slots[j].online ==> slots[i].name != slots[j].name
  }

  class Server {
    const client: array<User>

    constructor ()
      ensures fresh(client) && client.Length == MAX_CLIENT
      ensures forall i :: 0 <= i < MAX_CLIENT ==> client[i] == User([], false, 0)
    {
      client := new User[MAX_CLIENT](i => User([], false, 0));
    }

    method FindSub() returns (sub: int)
      ensures -1 <= sub < client.Length
      ensures sub >= 0 ==> !client[sub].online
      ensures forall i :: 0 <= i < (if sub >= 0 then sub else client.Length) ==> client[i].online
    {
      for i := 0 to client.Length
        invariant forall j :: 0 <= j < i ==> client[j].online
      {
        if !client[i].online {
          return i;
        }
      }
      return -1;
    }

    method CheckOnline(name: seq<byte>) returns (found: bool)
      ensures found <==> exists i :: 0 <= i < client.Length && OnlineAs(client[i], name)
    {
      for i := 0 to client.Length
        invariant forall j :: 0 <= j < i ==> !OnlineAs(client[j], name)
      {
        if OnlineAs(client[i], name) {
          return true;
        }
      }
      return false;
    }

    /** The login loop for one accepted connection that sent `name`. To accept it
        the source needs a free slot: it does not test for a full table. */
    method Login(name: seq<byte>, fd: int) returns (reply: int, ghost sub: nat)
      requires (forall i :: 0 <= i < client.Length ==> !OnlineAs(client[i], name)) ==>
                 exists i :: 0 <= i < client.Length && !client[i].online
      requires Unique(client[..])
      modifies client
      ensures Unique(client[..])
      ensures (exists i :: 0 <= i < client.Length && OnlineAs(old(client[..])[i], name)) ==>
                reply == REFUSED && client[..] == old(client[..])
      ensures (forall i :: 0 <= i < client.Length ==> !OnlineAs(old(client[..])[i], name)) ==>
                && reply == NOTICE && sub < client.Length && !old(client[..])[sub].online
                && (forall i :: 0 <= i < sub ==> old(client[..])[i].online)
                && client[..] == old(client[..])[sub := User(name, true, fd)]
    {
      sub := 0;
      var dup := CheckOnline(name);
      if dup {
        return REFUSED, sub;
      }
      var k := FindSub();
      sub := k;
      client[k] := client[k].(online := true);
      client[k] := client[k].(fd := fd);
      client[k] := client[k].(name := name);
      reply := NOTICE;
    }

    /** A worker whose `chat_recv` failed. */
    method Logout(sub: nat)
      requires sub < client.Length && Unique(client[..])
      modifies client
      ensures Unique(client[..])
      ensures client[..] == old(client[..])[sub := old(client[sub]).(online := false)]
    {
      client[sub] := client[sub].(online := false);
    }

    method MsgForward(msg: Msg) returns (log: seq<Delivery>)
      ensures Delivers(log, client[..], msg) && Meant(log, client[..], msg)
    {
      DeliversMeant(client[..], msg);
      hide Meant;
      log := [];
      if msg.flag == PRIVATE || msg.flag == LIST {
        for i := 0 to client.Length
          invariant log == []
          invariant forall j :: 0 <= j < i && client[j].online ==> !Picks(msg, client[j].name)
        {
          if client[i].online && client[i].name == (if msg.flag == PRIVATE then msg.to else msg.from) {
            log := [Delivery(i, client[i].fd, Forwarded(msg))];
            assert log[0] in log;
            return;
          }
        }
      } else if msg.flag == PUBLIC || msg.flag == NOTICE {
        for i := 0 to client.Length
          invariant Increasing(log)
          invariant forall d :: d in log ==> d.sub < i && Addressed(d, client[..], msg)
          invariant forall j :: 0 <= j < i && client[j].online && Picks(msg, client[j].name) ==> Served(log, j)
        {
          if client[i].online && client[i].name != msg.from {
            var d := Delivery(i, client[i].fd, msg);
            ServedMore(log, d);
            log := log + [d];
          }
        }
      }
    }
  }

  /** `k` is the first slot online under the name. */
  ghost predicate FirstAs(slots: seq<User>, name: seq<byte>, k: nat) {
    k < |slots| && OnlineAs(slots[k], name) && forall j :: 0 <= j < k ==> !OnlineAs(slots[j], name)
  }

  /** The copy went to the first slot online under the name, or nothing was sent. */
  ghost predicate ToFirst(log: seq<Delivery>, slots: seq<User>, name: seq<byte>, copy: Msg) {
    && (forall k: nat :: FirstAs(slots, name, k) ==> log == [Delivery(k, slots[k].fd, copy)])
    && ((forall k: nat :: !FirstAs(slots, name, k)) ==> log == [])
  }

  /** Flag by flag: private messages go to the recipient, list requests are answered to
      the user who made them, public messages and notices go to everybody online but
      their author, in slot order, and with any other flag nothing is sent. */
  ghost predicate Meant(log: seq<Delivery>, slots: seq<User>, msg: Msg) {
    && (msg.flag == PRIVATE ==> ToFirst(log, slots, msg.to, msg))
    && (msg.flag == LIST ==> ToFirst(log, slots, msg.from, Msg(msg.from, msg.to, NOTICE, LIST_TEXT)))
    && (msg.flag == PUBLIC || msg.flag == NOTICE ==>
          && Increasing(log)
          && forall d :: d in log <==> d.sub < |slots| && slots[d.sub].online && slots[d.sub].name != msg.from
                                       && d == Delivery(d.sub, slots[d.sub].fd, msg))
    && (msg.flag !in {PRIVATE, LIST, PUBLIC, NOTICE} ==> log == [])
  }

  lemma DeliversMeant(slots: seq<User>, msg: Msg)
    ensures forall log :: Delivers(log, slots, msg) ==> Meant(log, slots, msg)
  {
    forall log | Delivers(log, slots, msg)
      ensures Meant(log, slots, msg)
    {
      if msg.flag == PRIVATE {
        GoesToFirst(log, slots, msg, msg.to);
      } else if msg.flag == LIST {
        GoesToFirst(log, slots, msg, msg.from);
      } else {
        GoesToOthers(log, slots, msg);
      }
    }
  }

  lemma GoesToFirst(log: seq<Delivery>, slots: seq<User>, msg: Msg, name: seq<byte>)
    requires Delivers(log, slots, msg)
    requires (msg.flag == PRIVATE && msg.to == name) || (msg.flag == LIST && msg.from == name)
    ensures ToFirst(log, slots, name, Forwarded(msg))
  {
    if log != [] {
      assert log[0] in log;
      var k := log[0].sub;
      forall j | 0 <= j < k
        ensures !OnlineAs(slots[j], name)
      {
        assert !Served(log, j);
      }
      assert FirstAs(slots, name, k);
    } else {
      forall k: nat
        ensures !FirstAs(slots, name, k)
      {
        assert !Served(log, k);
      }
    }
  }

  lemma GoesToOthers(log: seq<Delivery>, slots: seq<User>, msg: Msg)
    requires Delivers(log, slots, msg) && msg.flag != PRIVATE && msg.flag != LIST
    ensures Meant(log, slots, msg)
  {
    if log != [] {
      assert log[0] in log;
    }
    if msg.flag == PUBLIC || msg.flag == NOTICE {
      forall d: Delivery | d.sub < |slots| && slots[d.sub].online && slots[d.sub].name != msg.from
                           && d == Delivery(d.sub, slots[d.sub].fd, msg)
        ensures d in log
      {
        assert Served(log, d.sub);
        var e :| e in log && e.sub == d.sub;
        assert e == d;
      }
    }
  }

  lemma ServedMore(log: seq<Delivery>, d: Delivery)
    ensures Served(log + [d], d.sub)
    ensures forall i: nat :: Served(log, i) ==> Served(log + [d], i)
  {
    assert (log + [d])[|log|] == d;
    forall i: nat | Served(log, i)
      ensures Served(log + [d], i)
    {
      var e :| e in log && e.sub == i;
      assert e in log + [d];
    }
  }

  /** Two scans of the same table send the same: `Delivers` leaves no choice. */
  lemma {:induction false} DeliversUnique(a: seq<Delivery>, b: seq<Delivery>, slots: seq<User>, msg: Msg)
    requires Delivers(a, slots, msg) && Delivers(b, slots, msg)
    ensures a == b
  {
    forall k | 0 <= k < |a| && k < |b| && a[..k] == b[..k]
      ensures a[k] == b[k]
    {
      SameNext(a, b, slots, msg, k);
      SameNext(b, a, slots, msg, k);
      assert a[k] in a && b[k] in b;
    }
    SameUpTo(a, b, if |a| < |b| then |a| else |b|);
    if |a| <= |b| {
      NoMore(a, b, slots, msg);
    } else {
      NoMore(b, a, slots, msg);
    }
  }

  lemma SameNext(a: seq<Delivery>, b: seq<Delivery>, slots: seq<User>, msg: Msg, k: nat)
    requires Delivers(a, slots, msg) && Delivers(b, slots, msg)
    requires k < |a| && k < |b| && a[..k] == b[..k]
    ensures a[k].sub >= b[k].sub
  {
    assert a[k] in a && b[k] in b;
    if Served(b, a[k].sub) {
      var d :| d in b && d.sub == a[k].sub;
      var m :| 0 <= m < |b| && b[m] == d;
      assert forall x :: 0 <= x < k ==> a[x] == a[..k][x] && b[x] == b[..k][x];
      assert k <= m;
    }
  }

  lemma {:induction false} SameUpTo(a: seq<Delivery>, b: seq<Delivery>, n: nat)
    requires n <= |a| && n <= |b|
    requires forall k :: 0 <= k < |a| && k < |b| && a[..k] == b[..k] ==> a[k] == b[k]
    ensures a[..n] == b[..n]
  {
    if n > 0 {
      SameUpTo(a, b, n - 1);
      assert a[..n] == a[..n - 1] + [a[n - 1]] && b[..n] == b[..n - 1] + [b[n - 1]];
    }
  }

  lemma NoMore(a: seq<Delivery>, b: seq<Delivery>, slots: seq<User>, msg: Msg)
    requires Delivers(a, slots, msg) && Delivers(b, slots, msg)
    requires |a| <= |b| && a == b[..|a|]
    ensures |a| == |b|
  {
    if b != [] {
      var last := b[|b| - 1];
      assert last in b;
      if Served(a, last.sub) {
        var d :| d in a && d.sub == last.sub;
        var m :| 0 <= m < |a| && a[m] == d;
        assert b[m] == a[m];
      }
    }
  }
}
