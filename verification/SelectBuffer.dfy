/** The per-connection buffer of the select server: receive until the socket
    would block, keep what fits, and send once a blank line ended a batch. */
module SelectBuffer {
  import opened Bytes

  const BUFF_SIZE := 4096

  /** `data` is `buff[..recv_index]`; what lies behind is never read. */
  datatype Buf = Buf(flag: bool, sendIndex: nat, data: seq<byte>)

  const FRESH := Buf(false, 0, [])

  /** The text ends in CR LF CR LF. With three bytes the source compares one byte
      before the array, which is zero; so four are needed. */
  predicate EndsBlock(d: seq<byte>) {
    |d| >= 4 && d[|d| - 4] == CR && d[|d| - 3] == LF && d[|d| - 2] == CR && d[|d| - 1] == LF
  }

  function Kept(b: Buf, batch: seq<byte>): (r: seq<byte>)
    ensures r <= batch
    ensures |b.data| <= BUFF_SIZE ==> |b.data| + |r| <= BUFF_SIZE && (|b.data| + |r| == BUFF_SIZE || r == batch)
  {
    if |b.data| + |batch| <= BUFF_SIZE then batch
    else if |b.data| >= BUFF_SIZE then []
    else batch[..BUFF_SIZE - |b.data|]
  }

  /** One successful `recv` of `RecvToBuffer`. */
  function Receive(b: Buf, batch: seq<byte>): Buf {
    var data := b.data + UpperAll(Kept(b, batch));
    b.(data := data, flag := b.flag || EndsBlock(data))
  }

  /** How much `send` takes when the socket has room for `room` bytes. */
  function Taken(b: Buf, room: nat): nat
    requires b.sendIndex <= |b.data|
  {
    if room <= |b.data| - b.sendIndex then room else |b.data| - b.sendIndex
  }

  /** One successful `send` of `SendFromBuffer`, with the reset that follows when
      it empties the buffer. */
  function Send(b: Buf, room: nat): Buf
    requires b.sendIndex <= |b.data|
  {
    var at := b.sendIndex + Taken(b, room);
    if at == |b.data| then FRESH else b.(sendIndex := at)
  }

  datatype RecvResult = Data(bytes: seq<byte>) | RecvBlocked | RecvFailed | Closed
  datatype SendResult = Took(room: nat) | SendBlocked | SendFailed

  /** `RecvToBuffer` as a function of the results of its `recv`s. */
  function ReceiveAll(b: Buf, recvs: seq<RecvResult>): (r: Buf)
    ensures r.sendIndex == b.sendIndex && b.data <= r.data
    decreases |recvs|
  {
    if recvs == [] || !recvs[0].Data? then b else ReceiveAll(Receive(b, recvs[0].bytes), recvs[1..])
  }

  function RecvCode(recvs: seq<RecvResult>): int {
    if recvs == [] then 0
    else
      match recvs[0]
      case Data(_) => RecvCode(recvs[1..])
      case RecvBlocked => 0
      case RecvFailed => -1
      case Closed => 1
  }

  /** `SendFromBuffer`: the buffer afterwards, the bytes sent, the return value. */
  function SendAll(b: Buf, sends: seq<SendResult>): (Buf, seq<byte>, int)
    requires b.sendIndex <= |b.data|
    decreases |sends|
  {
    if b.sendIndex == |b.data| then (FRESH, [], 0)
    else if sends == [] || sends[0].SendBlocked? then (b, [], 0)
    else if sends[0].SendFailed? then (b, [], -1)
    else
      var n := Taken(b, sends[0].room);
      var (b', out, code) := SendAll(b.(sendIndex := b.sendIndex + n), sends[1..]);
      (b', b.data[b.sendIndex..b.sendIndex + n] + out, code)
  }

  /** What a turn of the select loop meets on one connection. `wset` is its
      membership in the write set, which was filled from the flag before the wait. */
  datatype Input = Input(readable: bool, recvs: seq<RecvResult>, wset: bool, sends: seq<SendResult>)

  function Arriving(t: Input): seq<RecvResult> {
    if t.readable then t.recvs else []
  }

  /** The buffer after the turn, the bytes sent, the return value. */
  function TurnOf(b: Buf, t: Input): (Buf, seq<byte>, int)
    requires b.sendIndex <= |b.data|
  {
    var b', code := ReceiveAll(b, Arriving(t)), RecvCode(Arriving(t));
    if code == 0 && t.wset then SendAll(b', t.sends) else (b', [], code)
  }

  // ---------------------------------------------------------------- what a turn amounts to

  /** Where the receive loop stops: the first result that brings no bytes. */
  function Stop(recvs: seq<RecvResult>): (k: nat)
    ensures k <= |recvs| && (forall j :: 0 <= j < k ==> recvs[j].Data?) && (k < |recvs| ==> !recvs[k].Data?)
  {
    if recvs == [] || !recvs[0].Data? then 0 else 1 + Stop(recvs[1..])
  }

  /** The connection is still there when nothing more can be received. */
  predicate Open(recvs: seq<RecvResult>) {
    Stop(recvs) < |recvs| ==> recvs[Stop(recvs)].RecvBlocked?
  }

  /** How many bytes the socket takes before it blocks or fails. */
  function Room(sends: seq<SendResult>): nat {
    if sends == [] || !sends[0].Took? then 0 else sends[0].room + Room(sends[1..])
  }

  predicate Fails(sends: seq<SendResult>) {
    sends != [] && if sends[0].Took? then Fails(sends[1..]) else sends[0].SendFailed?
  }

  function Pending(b: Buf): seq<byte>
    requires b.sendIndex <= |b.data|
  {
    b.data[b.sendIndex..]
  }

  /** As many of the pending bytes as the socket has room for were sent, in order; when
      that is all of them, the buffer is a fresh one, else it starts behind them. */
  ghost predicate Drained(b: Buf, sends: seq<SendResult>, b': Buf, out: seq<byte>, code: int)
    requires b.sendIndex <= |b.data|
  {
    if |Pending(b)| <= Room(sends) then b' == FRESH && out == Pending(b) && code == 0
    else
      && out == Pending(b)[..Room(sends)] && b' == b.(sendIndex := b.sendIndex + |out|)
      && code == if Fails(sends) then -1 else 0
  }

  lemma {:induction false} SendAllDrains(b: Buf, sends: seq<SendResult>)
    requires b.sendIndex <= |b.data|
    ensures var (b', out, code) := SendAll(b, sends);
            Drained(b, sends, b', out, code)
    decreases |sends|
  {
    if b.sendIndex < |b.data| && sends != [] && sends[0].Took? {
      var b1 := b.(sendIndex := b.sendIndex + Taken(b, sends[0].room));
      SendAllDrains(b1, sends[1..]);
      var (b', out, code) := SendAll(b1, sends[1..]);
      DrainedOneMore(b, b1, sends, b', out, code);
    }
  }

  lemma DrainedOneMore(b: Buf, b1: Buf, sends: seq<SendResult>, b': Buf, out: seq<byte>, code: int)
    requires b.sendIndex <= |b.data| && sends != [] && sends[0].Took?
    requires b1 == b.(sendIndex := b.sendIndex + Taken(b, sends[0].room))
    requires Drained(b1, sends[1..], b', out, code)
    ensures Drained(b, sends, b', b.data[b.sendIndex..b1.sendIndex] + out, code)
  {
    assert Pending(b) == b.data[b.sendIndex..b1.sendIndex] + Pending(b1);
  }

  lemma {:induction false} RecvCodeMeans(recvs: seq<RecvResult>)
    ensures RecvCode(recvs) == if Open(recvs) then 0 else if recvs[Stop(recvs)].Closed? then 1 else -1
  {
    if recvs != [] && recvs[0].Data? {
      RecvCodeMeans(recvs[1..]);
    }
  }

  /** A turn receives; then, if the connection is still there and in the write set, it
      sends what it can; a lost connection gives 1 when the peer closed it, else -1. */
  ghost predicate TurnDone(b: Buf, t: Input, b': Buf, out: seq<byte>, code: int) {
    var recvs := Arriving(t);
    var filled := ReceiveAll(b, recvs);
    if !Open(recvs) then b' == filled && out == [] && code == if recvs[Stop(recvs)].Closed? then 1 else -1
    else if !t.wset then b' == filled && out == [] && code == 0
    else filled.sendIndex <= |filled.data| && Drained(filled, t.sends, b', out, code)
  }

  lemma TurnIsDone(b: Buf, t: Input)
    requires b.sendIndex <= |b.data|
    ensures var (b', out, code) := TurnOf(b, t);
            TurnDone(b, t, b', out, code)
  {
    hide ReceiveAll, SendAll, Drained;
    RecvCodeMeans(Arriving(t));
    SendAllDrains(ReceiveAll(b, Arriving(t)), t.sends);
  }

  /** So a turn in the write set sends something whenever bytes are pending, the
      connection is still there and the socket has room; and everything, leaving a
      fresh buffer, when the socket has room for everything. */
  lemma TurnSends(b: Buf, t: Input)
    requires b.sendIndex <= |b.data| && t.wset && Open(Arriving(t))
    ensures var pending, (b', out, code) := Pending(ReceiveAll(b, Arriving(t))), TurnOf(b, t);
            && out <= pending
            && (pending != [] && t.sends != [] && t.sends[0].Took? && t.sends[0].room > 0 ==> out != [])
            && (|pending| <= Room(t.sends) ==> out == pending && b' == FRESH && code == 0)
  {
    hide ReceiveAll, TurnOf;
    TurnIsDone(b, t);
  }

  /** Behind `data` the batch was stored, raised, up to its end or the buffer's. */
  ghost predicate Stored(data: seq<byte>, batch: seq<byte>, data': seq<byte>) {
    && data <= data' && |data'| - |data| <= |batch| && Raised(data'[|data|..], batch[..|data'| - |data|])
    && (|data'| == BUFF_SIZE || |data'| - |data| == |batch|)
  }

  lemma KeptStored(b: Buf, batch: seq<byte>)
    requires |b.data| <= BUFF_SIZE
    ensures Stored(b.data, batch, b.data + UpperAll(Kept(b, batch)))
  {
    hide UpperAll;
    var kept := Kept(b, batch);
    UpperRaises(kept);
    assert (b.data + UpperAll(kept))[|b.data|..] == UpperAll(kept) && batch[..|kept|] == kept;
  }

  class Buffer {
    var fd: int
    var flag: int
    var sendIndex: nat
    var recvIndex: nat
    const buff: array<byte>

    ghost predicate Valid()
      reads this, buff
    {
      buff.Length == BUFF_SIZE && sendIndex <= recvIndex <= BUFF_SIZE && 0 <= flag <= 1
    }

    ghost function Model(): (b: Buf)
      reads this, buff
      requires Valid()
      ensures b.sendIndex <= |b.data| <= BUFF_SIZE
    {
      Buf(flag == 1, sendIndex, buff[..recvIndex])
    }

    constructor ()
      ensures Valid() && fresh(buff) && fd == -1 && Model() == FRESH
    {
      fd, flag, sendIndex, recvIndex := -1, 0, 0, 0;
      buff := new byte[BUFF_SIZE];
    }

    /** The copying loop for one batch. */
    method Copy(batch: seq<byte>)
      requires Valid()
      modifies this`recvIndex, buff
      ensures Valid() && buff[..recvIndex] == old(Model()).data + UpperAll(Kept(old(Model()), batch))
      ensures Stored(old(Model()).data, batch, buff[..recvIndex])
    {
      hide UpperAll, Kept, Stored;
      ghost var b := Model();
      assert b.data + UpperAll([]) == b.data;
      for i := 0 to |batch|
        invariant Valid() && recvIndex == |b.data| + |Kept(b, batch[..i])|
        invariant buff[..recvIndex] == b.data + UpperAll(Kept(b, batch[..i]))
      {
        KeptGrows(b, batch, i);
        if recvIndex < BUFF_SIZE {
          UpperSnoc(Kept(b, batch[..i]), batch[i]);
          buff[recvIndex] := Upper(batch[i]);
          recvIndex := recvIndex + 1;
        }
      }
      assert batch[..|batch|] == batch;
      KeptStored(b, batch);
    }

    /** One turn of the receive loop: copy, then test for the terminator. */
    method Store(batch: seq<byte>)
      requires Valid()
      modifies this, buff
      ensures Valid() && fd == old(fd) && Model() == Receive(old(Model()), batch)
    {
      hide UpperAll, Kept, Stored;
      Copy(batch);
      if recvIndex >= 4 && buff[recvIndex - 1] == LF && buff[recvIndex - 3] == LF
         && buff[recvIndex - 2] == CR && buff[recvIndex - 4] == CR
      {
        flag := 1;
      }
    }

    method RecvToBuffer(recvs: seq<RecvResult>) returns (code: int)
      requires Valid()
      modifies this, buff
      ensures Valid() && fd == old(fd) && Model() == ReceiveAll(old(Model()), recvs) && code == RecvCode(recvs)
    {
      var i := 0;
      assert recvs[0..] == recvs;
      while i < |recvs| && recvs[i].Data?
        invariant i <= |recvs| && Valid() && fd == old(fd)
        invariant ReceiveAll(Model(), recvs[i..]) == ReceiveAll(old(Model()), recvs)
        invariant RecvCode(recvs[i..]) == RecvCode(recvs)
      {
        assert recvs[i..][1..] == recvs[i + 1..];
        Store(recvs[i].bytes);
        i := i + 1;
      }
      if i == |recvs| {
        return 0;
      }
      code := match recvs[i] case RecvBlocked => 0 case RecvFailed => -1 case Closed => 1;
    }

    method SendFromBuffer(sends: seq<SendResult>) returns (out: seq<byte>, code: int)
      requires Valid()
      modifies this
      ensures Valid() && (Model(), out, code) == SendAll(old(Model()), sends)
      ensures fd == if code == -1 then -1 else old(fd)
    {
      var i := 0;
      out := [];
      hide SendAll;
      ghost var b, goal := Model(), SendAll(Model(), sends);
      assert sends[0..] == sends && out + goal.1 == goal.1;
      while sendIndex < recvIndex
        invariant i <= |sends| && Valid() && fd == old(fd) && recvIndex == old(recvIndex)
        invariant flag == old(flag) && buff[..recvIndex] == b.data
        invariant Onward(Model(), sends[i..], out) == goal
        decreases |sends| - i
      {
        SendTurn(Model(), sends, i, out);
        if i == |sends| || sends[i].SendBlocked? {
          return out, 0;
        }
        if sends[i].SendFailed? {
          fd := -1;
          return out, -1;
        }
        var n := if sends[i].room <= recvIndex - sendIndex then sends[i].room else recvIndex - sendIndex;
        out := out + buff[..recvIndex][sendIndex..sendIndex + n];
        sendIndex := sendIndex + n;
        i := i + 1;
      }
      SendTurn(Model(), sends, i, out);
      sendIndex, recvIndex := 0, 0;
      flag := 0;
      code := 0;
    }

    /** A connection's turn in the select loop. */
    method Turn(readable: bool, recvs: seq<RecvResult>, wset: bool, sends: seq<SendResult>)
      returns (out: seq<byte>, retval: int)
      requires Valid() && (wset ==> flag == 1)
      modifies this, buff
      ensures Valid() && (Model(), out, retval) == TurnOf(old(Model()), Input(readable, recvs, wset, sends))
      ensures TurnDone(old(Model()), Input(readable, recvs, wset, sends), Model(), out, retval)
      ensures fd == if retval != 0 then -1 else old(fd)
    {
      hide TurnDone;
      TurnIsDone(Model(), Input(readable, recvs, wset, sends));
      out, retval := [], 0;
      if readable {
        retval := RecvToBuffer(recvs);
      }
      if retval == 0 && wset {
        out, retval := SendFromBuffer(sends);
      }
      if retval != 0 {
        fd := -1;
      }
    }
  }

  lemma KeptGrows(b: Buf, batch: seq<byte>, i: nat)
    requires i < |batch| && |b.data| <= BUFF_SIZE
    ensures |b.data| + |Kept(b, batch[..i])| <= BUFF_SIZE
    ensures var k := Kept(b, batch[..i]);
            Kept(b, batch[..i + 1]) == if |b.data| + |k| < BUFF_SIZE then k + [batch[i]] else k
  {
    assert batch[..i + 1] == batch[..i] + [batch[i]];
  }

  /** `SendAll` when `out` was sent before. */
  function Onward(b: Buf, sends: seq<SendResult>, out: seq<byte>): (Buf, seq<byte>, int)
    requires b.sendIndex <= |b.data|
  {
    var rest := SendAll(b, sends);
    (rest.0, out + rest.1, rest.2)
  }

  lemma SendTurn(b: Buf, sends: seq<SendResult>, i: nat, out: seq<byte>)
    requires b.sendIndex <= |b.data| && i <= |sends|
    ensures Onward(b, sends[i..], out)
         == if b.sendIndex == |b.data| then (FRESH, out, 0)
            else if i == |sends| || sends[i].SendBlocked? then (b, out, 0)
            else if sends[i].SendFailed? then (b, out, -1)
            else
              var n := Taken(b, sends[i].room);
              Onward(b.(sendIndex := b.sendIndex + n), sends[i + 1..], out + b.data[b.sendIndex..b.sendIndex + n])
  {
    assert out + [] == out;
    if i < |sends| {
      assert sends[i..][1..] == sends[i + 1..];
      if b.sendIndex < |b.data| && sends[i].Took? {
        var n := Taken(b, sends[i].room);
        var chunk := b.data[b.sendIndex..b.sendIndex + n];
        var rest := SendAll(b.(sendIndex := b.sendIndex + n), sends[i + 1..]);
        assert out + (chunk + rest.1) == out + chunk + rest.1;
      }
    }
  }

  // ---------------------------------------------------------------- whole connections

  /** A connection since it got a fresh buffer: all bytes received, all bytes
      accepted (raised), all bytes sent. */
  datatype Conn = Conn(buf: Buf, got: seq<byte>, kept: seq<byte>, sent: seq<byte>)

  /** `Out` is a `send`; the select loop makes one only on a flagged buffer. */
  datatype Event = In(batch: seq<byte>) | Out(room: nat)

  predicate Enabled(c: Conn, e: Event) {
    c.buf.sendIndex <= |c.buf.data| && (e.Out? ==> c.buf.flag)
  }

  function Step(c: Conn, e: Event): Conn
    requires Enabled(c, e)
  {
    match e
    case In(batch) =>
      Conn(Receive(c.buf, batch), c.got + batch, c.kept + UpperAll(Kept(c.buf, batch)), c.sent)
    case Out(room) =>
      c.(buf := Send(c.buf, room),
         sent := c.sent + c.buf.data[c.buf.sendIndex..c.buf.sendIndex + Taken(c.buf, room)])
  }

  ghost predicate Run(states: seq<Conn>, events: seq<Event>) {
    && |states| == |events| + 1 && states[0] == Conn(FRESH, [], [], [])
    && forall i :: 0 <= i < |events| ==> Enabled(states[i], events[i]) && states[i + 1] == Step(states[i], events[i])
  }

  /** CR LF CR LF occurs in the text. */
  ghost predicate HasBlock(d: seq<byte>) {
    exists k :: 4 <= k <= |d| && EndsBlock(d[..k])
  }

  /** The buffer's state machine: bytes leave only after a block, an emptied buffer
      is a fresh one, and the flag is up whenever the text ends in a block. */
  ghost predicate Sound(b: Buf) {
    && b.sendIndex <= |b.data| <= BUFF_SIZE
    && (b.sendIndex == |b.data| ==> b == FRESH)
    && (b.sendIndex > 0 ==> b.flag)
    && (b.flag ==> HasBlock(b.data))
    && (!b.flag ==> !EndsBlock(b.data))
  }

  /** Nothing is lost, repeated or reordered between acceptance and sending. */
  ghost predicate Conserved(c: Conn) {
    c.buf.sendIndex <= |c.buf.data| && c.sent + c.buf.data[c.buf.sendIndex..] == c.kept
  }

  /** `a` is `b` with some bytes left out. */
  ghost predicate Subsequence(a: seq<byte>, b: seq<byte>)
    decreases |b|
  {
    if a == [] then true
    else if b == [] then false
    else (a[|a| - 1] == b[|b| - 1] && Subsequence(a[..|a| - 1], b[..|b| - 1])) || Subsequence(a, b[..|b| - 1])
  }

  lemma SoundStep(c: Conn, e: Event)
    requires Sound(c.buf) && Enabled(c, e)
    ensures Sound(Step(c, e).buf)
  {
    match e
    case In(batch) =>
      var b' := Receive(c.buf, batch);
      if EndsBlock(b'.data) {
        assert b'.data[..|b'.data|] == b'.data;
      } else if c.buf.flag {
        var k :| 4 <= k <= |c.buf.data| && EndsBlock(c.buf.data[..k]);
        assert b'.data[..k] == c.buf.data[..k];
      }
    case Out(room) =>
  }

  lemma ConservedStep(c: Conn, e: Event)
    requires Conserved(c) && Enabled(c, e)
    ensures Conserved(Step(c, e))
  {
    match e
    case In(batch) => ConservedIn(c, UpperAll(Kept(c.buf, batch)));
    case Out(room) => ConservedOut(c, Taken(c.buf, room));
  }

  lemma ConservedIn(c: Conn, more: seq<byte>)
    requires Conserved(c)
    ensures c.sent + (c.buf.data + more)[c.buf.sendIndex..] == c.kept + more
  {
    var b := c.buf;
    assert (b.data + more)[b.sendIndex..] == b.data[b.sendIndex..] + more;
    Joined(c.sent, b.data[b.sendIndex..], more);
  }

  lemma ConservedOut(c: Conn, n: nat)
    requires Conserved(c) && c.buf.sendIndex + n <= |c.buf.data|
    ensures c.sent + c.buf.data[c.buf.sendIndex..c.buf.sendIndex + n] + c.buf.data[c.buf.sendIndex + n..] == c.kept
  {
    var b := c.buf;
    assert b.data[b.sendIndex..] == b.data[b.sendIndex..b.sendIndex + n] + b.data[b.sendIndex + n..];
    Joined(c.sent, b.data[b.sendIndex..b.sendIndex + n], b.data[b.sendIndex + n..]);
  }

  lemma SubsequenceTake(a: seq<byte>, b: seq<byte>, x: byte)
    requires Subsequence(a, b)
    ensures Subsequence(a + [x], b + [x])
  {
    var a', b' := a + [x], b + [x];
    assert a'[..|a'| - 1] == a && b'[..|b'| - 1] == b;
  }

  lemma SubsequenceSkip(a: seq<byte>, b: seq<byte>, x: byte)
    requires Subsequence(a, b)
    ensures Subsequence(a, b + [x])
  {
    var b' := b + [x];
    assert b'[..|b'| - 1] == b;
  }

  lemma {:induction false} SubsequenceAppend(a: seq<byte>, b: seq<byte>, more: seq<byte>, n: nat)
    requires Subsequence(a, b) && n <= |more|
    ensures Subsequence(a + more[..n], b + more)
    decreases |more|
  {
    hide Subsequence;
    if more == [] {
      assert a + more[..n] == a && b + more == b;
    } else {
      var m := |more| - 1;
      var init := more[..m];
      assert b + more == b + init + [more[m]];
      if n == |more| {
        SubsequenceAppend(a, b, init, m);
        assert a + more[..n] == a + init[..m] + [more[m]];
        SubsequenceTake(a + init[..m], b + init, more[m]);
      } else {
        SubsequenceAppend(a, b, init, n);
        assert init[..n] == more[..n];
        SubsequenceSkip(a + more[..n], b + init, more[m]);
      }
    }
  }

  lemma UpperPrefix(s: seq<byte>, n: nat)
    requires n <= |s|
    ensures UpperAll(s[..n]) == UpperAll(s)[..n]
  {
    assert s == s[..n] + s[n..];
    UpperConcat(s[..n], s[n..]);
  }

  lemma SubsequenceStep(c: Conn, e: Event)
    requires Enabled(c, e) && Subsequence(c.kept, UpperAll(c.got))
    ensures Subsequence(Step(c, e).kept, UpperAll(Step(c, e).got))
  {
    hide Subsequence, UpperAll, Kept, Receive;
    match e
    case In(batch) =>
      var n := |Kept(c.buf, batch)|;
      UpperConcat(c.got, batch);
      UpperPrefix(batch, n);
      assert Kept(c.buf, batch) == batch[..n];
      SubsequenceAppend(c.kept, UpperAll(c.got), UpperAll(batch), n);
    case Out(_) =>
  }

  /** Every run of a connection, at every moment. */
  lemma {:induction false} RunSound(states: seq<Conn>, events: seq<Event>, i: nat)
    requires Run(states, events) && i < |states|
    ensures Sound(states[i].buf) && Conserved(states[i]) && Subsequence(states[i].kept, UpperAll(states[i].got))
  {
    hide Step, Subsequence, UpperAll;
    if i > 0 {
      RunSound(states, events, i - 1);
      SoundStep(states[i - 1], events[i - 1]);
      ConservedStep(states[i - 1], events[i - 1]);
      SubsequenceStep(states[i - 1], events[i - 1]);
      assert states[i - 1 + 1] == Step(states[i - 1], events[i - 1]);
    } else {
      assert Subsequence([], UpperAll([])) by { NothingIsSubsequence(UpperAll([])); }
    }
  }

  lemma NothingIsSubsequence(b: seq<byte>)
    ensures Subsequence([], b)
  {
  }

  /** The batch is stored whole. */
  predicate Fits(c: Conn, e: Event) {
    e.In? ==> |c.buf.data| + |e.batch| <= BUFF_SIZE
  }

  lemma KeptStep(c: Conn, e: Event)
    requires Enabled(c, e) && |c.buf.data| <= BUFF_SIZE
    ensures |Step(c, e).kept| - |c.kept| <= |Step(c, e).got| - |c.got|
    ensures |Step(c, e).kept| - |c.kept| == |Step(c, e).got| - |c.got| <==> Fits(c, e)
    ensures Fits(c, e) && c.kept == UpperAll(c.got) ==> Step(c, e).kept == UpperAll(Step(c, e).got)
  {
    hide UpperAll;
    if e.In? {
      UpperConcat(c.got, e.batch);
    }
  }

  /** Everything received is accepted exactly when every batch found room. */
  lemma {:induction false} NothingDropped(states: seq<Conn>, events: seq<Event>, n: nat)
    requires Run(states, events) && n < |states|
    ensures |states[n].kept| <= |states[n].got|
    ensures |states[n].kept| == |states[n].got| <==> forall i :: 0 <= i < n ==> Fits(states[i], events[i])
    ensures |states[n].kept| == |states[n].got| ==> states[n].kept == UpperAll(states[n].got)
  {
    hide Step, UpperAll;
    if n > 0 {
      var last := n - 1;
      NothingDropped(states, events, last);
      RunSound(states, events, last);
      KeptStep(states[last], events[last]);
      assert states[last + 1] == Step(states[last], events[last]);
      assert |states[n].kept| == |states[n].got|
        <==> |states[last].kept| == |states[last].got| && Fits(states[last], events[last]);
    } else {
      UpperPrefix([], 0);
    }
  }

  /** Bytes received since the buffer was last empty. */
  function SinceEmpty(states: seq<Conn>, events: seq<Event>, n: nat): nat
    requires |states| == |events| + 1 && n < |states|
  {
    if n == 0 || states[n].buf == FRESH then 0
    else SinceEmpty(states, events, n - 1) + if events[n - 1].In? then |events[n - 1].batch| else 0
  }

  lemma {:induction false} SinceEmptyBounds(states: seq<Conn>, events: seq<Event>, n: nat)
    requires Run(states, events) && n < |states|
    ensures |states[n].buf.data| <= SinceEmpty(states, events, n)
  {
    RunSound(states, events, n);
    if n > 0 && states[n].buf != FRESH {
      var last := n - 1;
      SinceEmptyBounds(states, events, last);
      assert states[last + 1] == Step(states[last], events[last]);
    }
  }

  /** So a connection none of whose cycles, from one empty buffer to the next,
      receives more than the buffer holds loses nothing. */
  lemma SmallCyclesLoseNothing(states: seq<Conn>, events: seq<Event>, n: nat)
    requires Run(states, events) && n < |states|
    requires forall i :: 0 <= i < |events| && events[i].In? ==>
               SinceEmpty(states, events, i) + |events[i].batch| <= BUFF_SIZE
    ensures states[n].buf.sendIndex <= |states[n].buf.data|
    ensures states[n].sent + states[n].buf.data[states[n].buf.sendIndex..] == UpperAll(states[n].got)
  {
    forall i | 0 <= i < n
      ensures Fits(states[i], events[i])
    {
      SinceEmptyBounds(states, events, i);
    }
    NothingDropped(states, events, n);
    RunSound(states, events, n);
  }

  /** Nothing is sent before a batch has left the buffer ending in a block. */
  lemma {:induction false} BlockBeforeSending(states: seq<Conn>, events: seq<Event>, n: nat)
    requires Run(states, events) && n < |states| && (states[n].sent != [] || states[n].buf.flag)
    ensures exists i :: 0 <= i <= n && EndsBlock(states[i].buf.data)
  {
    if n > 0 && !EndsBlock(states[n].buf.data) {
      var last := n - 1;
      assert states[last + 1] == Step(states[last], events[last]);
      BlockBeforeSending(states, events, last);
    }
  }

  // ---------------------------------------------------------------- continuations

  function Last(states: seq<Conn>): Conn
    requires states != []
  {
    states[|states| - 1]
  }

  /** A longer run of the same connection. */
  ghost predicate Continues(states: seq<Conn>, events: seq<Event>, states': seq<Conn>, events': seq<Event>) {
    Run(states', events') && states <= states' && events <= events'
  }

  lemma RunOn(states: seq<Conn>, events: seq<Event>, e: Event)
    requires Run(states, events) && Enabled(Last(states), e)
    ensures Continues(states, events, states + [Step(Last(states), e)], events + [e])
    ensures Last(states + [Step(Last(states), e)]) == Step(Last(states), e)
  {
    hide Step, Enabled;
  }

  const BLOCK: seq<byte> := [CR, LF, CR, LF]

  /** Room is left for the bytes of CR LF CR LF that the text still needs. */
  ghost predicate CanFinish(data: seq<byte>) {
    exists m :: 1 <= m <= 4 && Finishes(data, m)
  }

  /** The last `m` bytes of CR LF CR LF complete a block within the buffer. */
  predicate Finishes(data: seq<byte>, m: nat)
    requires m <= 4
  {
    |data| + m <= BUFF_SIZE && EndsBlock(data + BLOCK[4 - m..])
  }

  /** Any more bytes that end a block do so with the end of CR LF CR LF. */
  lemma FinishedBy(data: seq<byte>, more: seq<byte>)
    requires more != [] && |data| + |more| <= BUFF_SIZE && EndsBlock(data + more)
    ensures CanFinish(data)
  {
    hide EndsBlock;
    var m := if |more| <= 4 then |more| else 4;
    TailOfBlock(data, more, m);
    if m < |more| {
      WholeBlock(data);
    } else {
      assert more[|more| - m..] == more;
    }
    assert Finishes(data, m);
  }

  lemma TailOfBlock(data: seq<byte>, more: seq<byte>, m: nat)
    requires EndsBlock(data + more) && m <= 4 && m <= |more|
    ensures more[|more| - m..] == BLOCK[4 - m..]
  {
    hide EndsBlock;
    var whole := data + more;
    BlockAtEnd(whole);
    assert more[|more| - m..] == whole[|whole| - 4..][4 - m..];
  }

  lemma BlockAtEnd(d: seq<byte>)
    requires EndsBlock(d)
    ensures |d| >= 4 && d[|d| - 4..] == BLOCK
  {
    assert d[|d| - 4..] == [d[|d| - 4], d[|d| - 3], d[|d| - 2], d[|d| - 1]];
  }

  lemma WholeBlock(data: seq<byte>)
    ensures EndsBlock(data + BLOCK) && BLOCK[0..] == BLOCK
  {
  }

  /** Nothing that arrives can raise the flag any more. */
  ghost predicate Stuck(b: Buf) {
    !b.flag && |b.data| <= BUFF_SIZE && !EndsBlock(b.data) && !CanFinish(b.data)
  }

  lemma FinishedLater(data: seq<byte>, more: seq<byte>, tail: seq<byte>)
    requires tail != [] && |data| + |more| + |tail| <= BUFF_SIZE && EndsBlock(data + more + tail)
    ensures CanFinish(data)
  {
    hide EndsBlock, CanFinish;
    assert data + more + tail == data + (more + tail);
    FinishedBy(data, more + tail);
  }

  lemma StuckData(data: seq<byte>, more: seq<byte>)
    requires !EndsBlock(data) && !CanFinish(data) && |data| + |more| <= BUFF_SIZE
    ensures !EndsBlock(data + more) && !CanFinish(data + more)
  {
    hide EndsBlock;
    if more == [] {
      assert data + more == data;
    } else if EndsBlock(data + more) {
      FinishedBy(data, more);
    } else {
      forall m | 1 <= m <= 4 && Finishes(data + more, m)
        ensures false
      {
        FinishedLater(data, more, BLOCK[4 - m..]);
      }
    }
  }

  lemma StuckStep(c: Conn, e: Event)
    requires Stuck(c.buf) && Enabled(c, e)
    ensures Stuck(Step(c, e).buf) && Step(c, e).sent == c.sent
  {
    hide EndsBlock, CanFinish;
    StuckData(c.buf.data, UpperAll(Kept(c.buf, e.batch)));
  }

  lemma {:induction false} StuckForEver(states: seq<Conn>, events: seq<Event>, m: nat, n: nat)
    requires Run(states, events) && m <= n < |states| && Stuck(states[m].buf)
    ensures Stuck(states[n].buf) && states[n].sent == states[m].sent
    decreases n
  {
    if n > m {
      var last := n - 1;
      StuckForEver(states, events, m, last);
      StuckStep(states[last], events[last]);
      assert states[last + 1] == Step(states[last], events[last]);
    }
  }

  lemma FinishStep(c: Conn, m: nat)
    requires Sound(c.buf) && !c.buf.flag && 1 <= m <= 4 && Finishes(c.buf.data, m)
    ensures Enabled(c, In(BLOCK[4 - m..]))
    ensures var b := Step(c, In(BLOCK[4 - m..])).buf;
            b.flag && b.sendIndex == 0 && |b.data| >= 4 && Step(c, In(BLOCK[4 - m..])).sent == c.sent
  {
    hide HasBlock;
    assert UpperAll(BLOCK[4 - m..]) == BLOCK[4 - m..];
  }

  lemma SendsOne(c: Conn)
    requires c.buf.flag && c.buf.sendIndex < |c.buf.data|
    ensures Enabled(c, Out(1)) && |Step(c, Out(1)).sent| == |c.sent| + 1
  {
  }

  /** When room is left, the missing end of the block gets the first byte out. */
  lemma FinishRun(states: seq<Conn>, events: seq<Event>, m: nat) returns (states': seq<Conn>, events': seq<Event>)
    requires Run(states, events) && !Last(states).buf.flag && 1 <= m <= 4 && Finishes(Last(states).buf.data, m)
    ensures Continues(states, events, states', events') && |events'| == |events| + 2
    ensures |Last(states').sent| == |Last(states).sent| + 1
  {
    hide EndsBlock, HasBlock, Subsequence, UpperAll, Conserved, Finishes, Receive, Step;
    RunSound(states, events, |states| - 1);
    hide Run;
    var c, e := Last(states), In(BLOCK[4 - m..]);
    FinishStep(c, m);
    var c1 := Step(c, e);
    RunOn(states, events, e);
    SendsOne(c1);
    RunOn(states + [c1], events + [e], Out(1));
    states', events' := states + [c1] + [Step(c1, Out(1))], events + [e] + [Out(1)];
    assert states <= states' && events <= events';
  }

  /** A connection whose buffer is not flagged can still get something sent, by
      whatever its client goes on to send, exactly when the buffer has room for the
      rest of CR LF CR LF. */
  lemma ProgressExactly(states: seq<Conn>, events: seq<Event>)
    requires Run(states, events) && !Last(states).buf.flag
    ensures CanFinish(Last(states).buf.data)
       <==> exists states', events' :: Continues(states, events, states', events')
                                    && Last(states').sent != Last(states).sent
  {
    hide EndsBlock, HasBlock, Subsequence, Finishes, Step;
    var c, m := Last(states), |states| - 1;
    RunSound(states, events, m);
    if CanFinish(c.buf.data) {
      var k :| 1 <= k <= 4 && Finishes(c.buf.data, k);
      var states', events' := FinishRun(states, events, k);
    } else {
      forall states', events' | Continues(states, events, states', events')
        ensures Last(states').sent == c.sent
      {
        assert states'[m] == states[m];
        StuckForEver(states', events', m, |states'| - 1);
      }
    }
  }

  /** One batch of `n` zero bytes gets a connection stuck for every `n` from 4093,
      so not only when the buffer is full. */
  lemma StuckReachable(n: nat) returns (states: seq<Conn>, events: seq<Event>)
    requires 4093 <= n <= BUFF_SIZE
    ensures Run(states, events) && |events| == 1 && Stuck(Last(states).buf) && |Last(states).buf.data| == n
  {
    hide UpperAll, EndsBlock, Finishes;
    var start, zeros := Conn(FRESH, [], [], []), Zeros(n);
    states, events := [start, Step(start, In(zeros))], [In(zeros)];
    assert Last(states).buf.data == UpperAll(zeros);
    ZerosStuck(UpperAll(zeros));
  }

  lemma ZerosStuck(data: seq<byte>)
    requires 4093 <= |data| <= BUFF_SIZE && forall i :: 0 <= i < |data| ==> data[i] == NUL
    ensures !EndsBlock(data) && !CanFinish(data)
  {
    forall m | 1 <= m <= 3
      ensures !Finishes(data, m)
    {
      assert (data + BLOCK[4 - m..])[|data| + m - 4] == data[|data| + m - 4] == NUL;
    }
  }

  // ---------------------------------------------------------------- the program's turns are such runs

  /** What the successful `recv`s of a turn delivered. */
  function Delivered(recvs: seq<RecvResult>): seq<byte>
    decreases |recvs|
  {
    if recvs == [] || !recvs[0].Data? then [] else recvs[0].bytes + Delivered(recvs[1..])
  }

  lemma ReceiveTakes(c: Conn, recvs: seq<RecvResult>)
    requires Sound(c.buf) && recvs != [] && recvs[0].Data?
    ensures Enabled(c, In(recvs[0].bytes))
    ensures var c' := Step(c, In(recvs[0].bytes));
            && ReceiveAll(c.buf, recvs) == ReceiveAll(c'.buf, recvs[1..]) && c'.sent == c.sent
            && c.got + Delivered(recvs) == c'.got + Delivered(recvs[1..])
  {
    hide Receive;
    var batch := recvs[0].bytes;
    assert c.got + (batch + Delivered(recvs[1..])) == c.got + batch + Delivered(recvs[1..]);
  }

  lemma {:induction false} ReceivingRuns(states: seq<Conn>, events: seq<Event>, recvs: seq<RecvResult>)
    returns (states': seq<Conn>, events': seq<Event>)
    requires Run(states, events)
    ensures Continues(states, events, states', events')
    ensures Last(states').buf == ReceiveAll(Last(states).buf, recvs)
    ensures Last(states').got == Last(states).got + Delivered(recvs) && Last(states').sent == Last(states).sent
    decreases |recvs|
  {
    states', events' := states, events;
    if recvs != [] && recvs[0].Data? {
      RunSound(states, events, |states| - 1);
      var c, e := Last(states), In(recvs[0].bytes);
      var c' := Step(c, e);
      RunOn(states, events, e);
      ReceiveTakes(c, recvs);
      hide Step, Delivered, ReceiveAll;
      states', events' := ReceivingRuns(states + [c'], events + [e], recvs[1..]);
    } else {
      assert Last(states).got + [] == Last(states).got;
    }
  }

  lemma SendAllTook(b: Buf, sends: seq<SendResult>)
    requires b.sendIndex < |b.data| && sends != [] && sends[0].Took?
    ensures var n := Taken(b, sends[0].room);
            var rest := SendAll(b.(sendIndex := b.sendIndex + n), sends[1..]);
            SendAll(b, sends) == (rest.0, b.data[b.sendIndex..b.sendIndex + n] + rest.1, rest.2)
  {
  }

  lemma SendAllDone(b: Buf, sends: seq<SendResult>)
    requires b.sendIndex == |b.data|
    ensures SendAll(b, sends) == (FRESH, [], 0)
  {
  }

  lemma SendTakes(c: Conn, sends: seq<SendResult>)
    requires Sound(c.buf) && c.buf.flag && sends != [] && sends[0].Took?
    ensures var c', s := Step(c, Out(sends[0].room)), SendAll(c.buf, sends);
            && c'.buf.sendIndex <= |c'.buf.data| && c'.got == c.got && (c'.buf == FRESH || c'.buf.flag)
            && var s' := if c'.buf == FRESH then (FRESH, [], 0) else SendAll(c'.buf, sends[1..]);
               (s.0, c.sent + s.1) == (s'.0, c'.sent + s'.1)
  {
    hide SendAll, HasBlock, EndsBlock;
    var n := Taken(c.buf, sends[0].room);
    var b := c.buf.(sendIndex := c.buf.sendIndex + n);
    var chunk := c.buf.data[c.buf.sendIndex..c.buf.sendIndex + n];
    SendAllTook(c.buf, sends);
    if b.sendIndex == |b.data| {
      SendAllDone(b, sends[1..]);
    }
    assert c.sent + (chunk + SendAll(b, sends[1..]).1) == c.sent + chunk + SendAll(b, sends[1..]).1;
  }

  lemma {:induction false} SendingRuns(states: seq<Conn>, events: seq<Event>, sends: seq<SendResult>)
    returns (states': seq<Conn>, events': seq<Event>)
    requires Run(states, events) && Last(states).buf.flag && Last(states).buf.sendIndex <= |Last(states).buf.data|
    ensures Continues(states, events, states', events') && Last(states').got == Last(states).got
    ensures Last(states').buf == SendAll(Last(states).buf, sends).0
    ensures Last(states').sent == Last(states).sent + SendAll(Last(states).buf, sends).1
    decreases |sends|
  {
    hide Step, HasBlock, Conserved, Subsequence;
    states', events' := states, events;
    RunSound(states, events, |states| - 1);
    if sends != [] && sends[0].Took? {
      hide SendAll;
      var c, e := Last(states), Out(sends[0].room);
      var c' := Step(c, e);
      SendTakes(c, sends);
      RunOn(states, events, e);
      states', events' := states + [c'], events + [e];
      assert c'.sent + [] == c'.sent;
      if c'.buf != FRESH {
        states', events' := SendingRuns(states', events', sends[1..]);
      }
    }
  }

  /** A turn of the select loop on the buffer of a connection extends that
      connection's run by its receives, and, if the write set and the receives
      allow, its sends. */
  lemma TurnRuns(states: seq<Conn>, events: seq<Event>, t: Input) returns (states': seq<Conn>, events': seq<Event>)
    requires Run(states, events) && (t.wset ==> Last(states).buf.flag)
    ensures Last(states).buf.sendIndex <= |Last(states).buf.data|
    ensures Continues(states, events, states', events')
    ensures Last(states').buf == TurnOf(Last(states).buf, t).0
    ensures Last(states').got == Last(states).got + Delivered(Arriving(t))
    ensures Last(states').sent == Last(states).sent + TurnOf(Last(states).buf, t).1
  {
    hide ReceiveAll, Delivered, SendAll, HasBlock, EndsBlock, Conserved, Subsequence;
    var c := Last(states);
    RunSound(states, events, |states| - 1);
    states', events' := ReceivingRuns(states, events, Arriving(t));
    FlagStays(c.buf, Arriving(t));
    if RecvCode(Arriving(t)) == 0 && t.wset {
      states', events' := SendingRuns(states', events', t.sends);
    } else {
      assert c.sent + [] == c.sent;
    }
  }

  /** The turns of a connection: the write set is taken from the flag before each
      turn, and a turn that returns nonzero is the last. */
  ghost predicate Session(b: Buf, turns: seq<Input>)
    decreases |turns|
  {
    turns != [] ==>
      && b.sendIndex <= |b.data| && (turns[0].wset ==> b.flag)
      && (|turns| > 1 ==> TurnOf(b, turns[0]).2 == 0) && Session(TurnOf(b, turns[0]).0, turns[1..])
  }

  function AfterTurns(b: Buf, turns: seq<Input>): Buf
    requires Session(b, turns)
    decreases |turns|
  {
    if turns == [] then b else AfterTurns(TurnOf(b, turns[0]).0, turns[1..])
  }

  function SentInTurns(b: Buf, turns: seq<Input>): seq<byte>
    requires Session(b, turns)
    decreases |turns|
  {
    if turns == [] then [] else TurnOf(b, turns[0]).1 + SentInTurns(TurnOf(b, turns[0]).0, turns[1..])
  }

  function ReceivedInTurns(turns: seq<Input>): seq<byte> {
    if turns == [] then [] else Delivered(Arriving(turns[0])) + ReceivedInTurns(turns[1..])
  }

  lemma {:induction false} SessionRuns(states: seq<Conn>, events: seq<Event>, turns: seq<Input>)
    returns (states': seq<Conn>, events': seq<Event>)
    requires Run(states, events) && Session(Last(states).buf, turns)
    ensures Continues(states, events, states', events')
    ensures Last(states').buf == AfterTurns(Last(states).buf, turns)
    ensures Last(states').got == Last(states).got + ReceivedInTurns(turns)
    ensures Last(states').sent == Last(states).sent + SentInTurns(Last(states).buf, turns)
    decreases |turns|
  {
    hide TurnOf, Delivered, Arriving;
    var c := Last(states);
    states', events' := states, events;
    if turns == [] {
      assert c.got + [] == c.got && c.sent + [] == c.sent;
    } else {
      states', events' := TurnRuns(states, events, turns[0]);
      var c1 := Last(states');
      Joined(c.got, Delivered(Arriving(turns[0])), ReceivedInTurns(turns[1..]));
      Joined(c.sent, TurnOf(c.buf, turns[0]).1, SentInTurns(c1.buf, turns[1..]));
      states', events' := SessionRuns(states', events', turns[1..]);
    }
  }

  /** So a connection's turns from a fresh buffer on are a run, and what holds in all
      runs holds of them: bytes sent then bytes pending are raised bytes received, in
      order, some perhaps dropped. */
  lemma SessionSound(turns: seq<Input>) returns (states: seq<Conn>, events: seq<Event>)
    requires Session(FRESH, turns)
    ensures Run(states, events)
    ensures Last(states).buf == AfterTurns(FRESH, turns) && Sound(Last(states).buf)
    ensures Last(states).got == ReceivedInTurns(turns) && Last(states).sent == SentInTurns(FRESH, turns)
    ensures var b := AfterTurns(FRESH, turns);
            && b.sendIndex <= |b.data|
            && Subsequence(SentInTurns(FRESH, turns) + b.data[b.sendIndex..], UpperAll(ReceivedInTurns(turns)))
  {
    hide Session, Subsequence, UpperAll, AfterTurns, SentInTurns, ReceivedInTurns, HasBlock;
    states, events := [Conn(FRESH, [], [], [])], [];
    states, events := SessionRuns(states, events, turns);
    RunSound(states, events, |states| - 1);
  }

  /** The client sends the end of the block, the program returns to the loop, and the
      next turn sends a byte. */
  lemma SessionFinishes(b: Buf, m: nat) returns (more: seq<Input>)
    requires Sound(b) && !b.flag && 1 <= m <= 4 && Finishes(b.data, m)
    ensures Session(b, more) && SentInTurns(b, more) != []
  {
    hide HasBlock, EndsBlock, UpperAll, Finishes;
    var c, tail := Conn(b, [], [], []), BLOCK[4 - m..];
    FinishStep(c, m);
    var t1, t2 := Input(true, [Data(tail)], false, []), Input(false, [], true, [Took(1)]);
    var b1 := Receive(b, tail);
    assert b1 == Step(c, In(tail)).buf;
    assert ReceiveAll(b, [Data(tail)]) == b1;
    TurnIsDone(b, t1);
    assert TurnOf(b, t1) == (b1, [], 0);
    TurnSends(b1, t2);
    more := [t1, t2];
    assert more[1..] == [t2] && more[1..][1..] == [];
    hide TurnOf, Receive;
    assert Session(TurnOf(b1, t2).0, []);
    assert Session(b1, [t2]);
  }

  /** For the program's turns: a connection whose buffer is not flagged after some turns
      can still get something sent by further turns exactly when the buffer has room for
      the rest of CR LF CR LF. */
  lemma SessionProgress(turns: seq<Input>)
    requires Session(FRESH, turns) && !AfterTurns(FRESH, turns).flag
    ensures CanFinish(AfterTurns(FRESH, turns).data)
       <==> exists more :: Session(AfterTurns(FRESH, turns), more) && SentInTurns(AfterTurns(FRESH, turns), more) != []
  {
    hide Session, Subsequence, UpperAll, AfterTurns, SentInTurns, ReceivedInTurns, HasBlock, EndsBlock, Finishes, Step;
    var b := AfterTurns(FRESH, turns);
    var states, events := SessionSound(turns);
    if CanFinish(b.data) {
      var m :| 1 <= m <= 4 && Finishes(b.data, m);
      var more := SessionFinishes(b, m);
    } else {
      ProgressExactly(states, events);
      forall more | Session(b, more)
        ensures SentInTurns(b, more) == []
      {
        var states', events' := SessionRuns(states, events, more);
        assert Last(states').sent == Last(states).sent;
      }
    }
  }

  lemma {:induction false} FlagStays(b: Buf, recvs: seq<RecvResult>)
    ensures b.flag ==> ReceiveAll(b, recvs).flag
    decreases |recvs|
  {
    if recvs != [] && recvs[0].Data? {
      FlagStays(Receive(b, recvs[0].bytes), recvs[1..]);
    }
  }
}
