/** The chatroom's message, its slot table, and the client's line parser. */
module Chat {
  import opened Bytes

  const SPACE: byte := 32
  const HASH: byte := 35
  const AT: byte := 64
  const NAME_MAX := 19

  /** `struct Msg`; its character fields as C strings. */
  datatype Msg = Msg(from: seq<byte>, to: seq<byte>, flag: int, message: seq<byte>)

  const PUBLIC := 0
  const PRIVATE := 1
  const NOTICE := 2
  const REFUSED := 3
  const LIST := 4

  /** One slot of `client`; the thread id is not part of the model. */
  datatype User = User(name: seq<byte>, online: bool, fd: int)

  // ---------------------------------------------------------------- the client's parser

  /** Position of the first space (`strstr(buff, " ")`); the length if none. */
  function FirstSpace(s: seq<byte>): (k: nat)
    ensures k <= |s| && SPACE !in s[..k]
    ensures k < |s| ==> s[k] == SPACE
  {
    if s == [] || s[0] == SPACE then 0 else 1 + FirstSpace(s[1..])
  }

  lemma {:induction false} FirstSpaceIs(s: seq<byte>, k: nat)
    requires k < |s| && SPACE !in s[..k] && s[k] == SPACE
    ensures FirstSpace(s) == k
  {
    if k > 0 {
      assert s[0] in s[..k];
      assert s[1..][..k - 1] == s[..k][1..];
      FirstSpaceIs(s[1..], k - 1);
    }
  }

  predicate StartsWith(s: seq<byte>, c: byte) {
    s != [] && s[0] == c
  }

  /** The message a typed line becomes, when `msg.to` held `to` before. */
  function Compose(from: seq<byte>, to: seq<byte>, line: seq<byte>): Msg {
    var pos := FirstSpace(line);
    if StartsWith(line, AT) && pos < |line| then Msg(from, line[1..pos], PRIVATE, line[pos + 1..])
    else Msg(from, to, if StartsWith(line, HASH) then LIST else PUBLIC, line)
  }

  /** The recipient fits `msg.to`; the source writes past that field otherwise. */
  predicate RecipientFits(line: seq<byte>) {
    StartsWith(line, AT) && FirstSpace(line) < |line| ==> FirstSpace(line) - 1 <= NAME_MAX
  }

  /** The typed form of a private message. */
  function PrivateLine(to: seq<byte>, body: seq<byte>): seq<byte> {
    [AT] + to + [SPACE] + body
  }

  /** Typing a private message and parsing it are inverse, both ways round. */
  lemma ComposePrivate(from: seq<byte>, old': seq<byte>, to: seq<byte>, body: seq<byte>)
    requires SPACE !in to
    ensures FirstSpace(PrivateLine(to, body)) == |to| + 1
    ensures Compose(from, old', PrivateLine(to, body)) == Msg(from, to, PRIVATE, body)
  {
    var line := PrivateLine(to, body);
    assert line[..|to| + 1] == [AT] + to;
    FirstSpaceIs(line, |to| + 1);
    assert line[1..|to| + 1] == to && line[|to| + 2..] == body;
  }

  lemma ComposeInverse(from: seq<byte>, old': seq<byte>, line: seq<byte>)
    ensures var m := Compose(from, old', line);
            && m.from == from && (m.flag == PRIVATE || m.flag == LIST || m.flag == PUBLIC)
            && if m.flag == PRIVATE then SPACE !in m.to && line == PrivateLine(m.to, m.message)
            else m.message == line && m.to == old' && (m.flag == LIST <==> StartsWith(line, HASH))
                 && (StartsWith(line, AT) ==> SPACE !in line)
  {
    var pos := FirstSpace(line);
    if StartsWith(line, AT) && pos < |line| {
      assert line == [AT] + line[1..pos] + [SPACE] + line[pos + 1..];
      forall c | c in line[1..pos]
        ensures c in line[..pos]
      {
        var i :| 0 <= i < |line[1..pos]| && line[1..pos][i] == c;
        assert line[..pos][i + 1] == c;
      }
    } else if pos == |line| {
      assert line[..pos] == line;
    }
  }

  /** The `msg` variable of `client_send`. */
  class Composer {
    const from: seq<byte>
    var to: seq<byte>
    var flag: int
    var message: seq<byte>

    constructor (from: seq<byte>, to: seq<byte>, message: seq<byte>)
      ensures this.from == from && this.to == to
    {
      this.from, this.to, this.flag, this.message := from, to, NOTICE, message;
    }

    /** One turn of the loop of `client_send`: parse, send, clear. */
    method ClientSend(buff: seq<byte>) returns (sent: Msg)
      requires RecipientFits(buff)
      modifies this
      ensures sent == Compose(from, old(to), buff)
      ensures to == [] && message == [] && flag == sent.flag
    {
      if StartsWith(buff, AT) {
        flag := PRIVATE;
        var pos := FirstSpace(buff);
        if pos == |buff| {
          flag := PUBLIC;
          message := buff;
        } else {
          message := buff[pos + 1..];
          to := buff[1..pos];
        }
      } else if StartsWith(buff, HASH) {
        flag := LIST;
        message := buff;
      } else {
        flag := PUBLIC;
        message := buff;
      }
      sent := Msg(from, to, flag, message);
      message := [];
      to := [];
    }
  }
}
