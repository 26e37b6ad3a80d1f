/** The packetising loop of the file sender. */
module Sender {
  import opened Bytes
  import opened FileMsg

  /** The bytes put on the wire for `file`: every packet carries the same header
      and alignment bytes; the buffer behind a short read still holds what it
      held before that read, which is `body` on the first packet. */
  function Wire(head: seq<byte>, body: seq<byte>, tail: seq<byte>, file: seq<byte>): seq<byte>
    requires |body| == BUF_LEN
    decreases |file|
  {
    if file == [] then []
    else
      var n := Piece(|file|);
      head + file[..n] + body[n..] + tail + Wire(head, Zeros(BUF_LEN), tail, file[n..])
  }

  /** Header bytes after `filemsg.size = ...` and `strcpy(filemsg.name, name)`;
      the name bytes behind the terminator keep their former contents. */
  function Header(before: seq<byte>, name: seq<byte>, size: nat): (h: seq<byte>)
    requires |before| == PACKET_SIZE && |name| < NAME_LEN
    ensures |h| == BUF_AT
  {
    LeBytes(size, SIZE_LEN) + name + [NUL] + before[SIZE_LEN + |name| + 1..BUF_AT]
  }

  /** `filemsg.size = size; strcpy(filemsg.name, name)`. */
  method FillHeader(filemsg: array<byte>, name: seq<byte>, size: nat)
    requires filemsg.Length == PACKET_SIZE && |name| < NAME_LEN
    modifies filemsg
    ensures filemsg[..] == Header(old(filemsg[..]), name, size) + old(filemsg[BUF_AT..])
  {
    var field := LeBytes(size, SIZE_LEN);
    forall i | 0 <= i < SIZE_LEN {
      filemsg[i] := field[i];
    }
    forall i | 0 <= i < |name| {
      filemsg[SIZE_LEN + i] := name[i];
    }
    filemsg[SIZE_LEN + |name|] := NUL;
  }

  /** Overwrites the start of `filemsg.buf`, as `fread` and `memset` do. */
  method FillBuf(filemsg: array<byte>, data: seq<byte>)
    requires filemsg.Length == PACKET_SIZE && |data| <= BUF_LEN
    modifies filemsg
    ensures filemsg[..] == old(filemsg[..BUF_AT]) + data + old(filemsg[BUF_AT + |data|..])
  {
    forall i | 0 <= i < |data| {
      filemsg[BUF_AT + i] := data[i];
    }
  }

  /** The loop body: what `fread` stored is sent in a whole packet, then the
      buffer is cleared. */
  method SendPacket(filemsg: array<byte>, data: seq<byte>) returns (sent: seq<byte>)
    requires filemsg.Length == PACKET_SIZE && |data| <= BUF_LEN
    modifies filemsg
    ensures sent == old(filemsg[..BUF_AT]) + data + old(filemsg[BUF_AT..BUF_AT + BUF_LEN])[|data|..]
                  + old(filemsg[BUF_AT + BUF_LEN..])
    ensures filemsg[..] == old(filemsg[..BUF_AT]) + Zeros(BUF_LEN) + old(filemsg[BUF_AT + BUF_LEN..])
  {
    FillBuf(filemsg, data);
    sent := filemsg[..];
    FillBuf(filemsg, Zeros(BUF_LEN));
  }

  /** Sends one file through the single `filemsg`, whatever it held on entry. */
  method SendFile(file: seq<byte>, name: seq<byte>, filemsg: array<byte>) returns (wire: seq<byte>)
    requires filemsg.Length == PACKET_SIZE && |name| < NAME_LEN
    modifies filemsg
    ensures wire == Wire(Header(old(filemsg[..]), name, |file|),
                         old(filemsg[BUF_AT..BUF_AT + BUF_LEN]), old(filemsg[BUF_AT + BUF_LEN..]), file)
  {
    hide Header, Wire;
    ghost var body, tail := filemsg[BUF_AT..BUF_AT + BUF_LEN], filemsg[BUF_AT + BUF_LEN..];
    FillHeader(filemsg, name, |file|);
    ghost var head := filemsg[..BUF_AT];
    ghost var all := Wire(head, body, tail, file);
    wire := [];
    var at := 0;
    assert file[0..] == file && wire + Wire(head, body, tail, file[0..]) == all;
    while at < |file|
      invariant 0 <= at <= |file|
      invariant |head| == BUF_AT && |body| == BUF_LEN && |tail| == PACKET_SIZE - BUF_AT - BUF_LEN
      invariant filemsg[..BUF_AT] == head && filemsg[BUF_AT + BUF_LEN..] == tail
      invariant filemsg[BUF_AT..BUF_AT + BUF_LEN] == body
      invariant wire + Wire(head, body, tail, file[at..]) == all
    {
      var n := Piece(|file| - at);
      WireStep(wire, head, body, tail, file, at);
      var sent := SendPacket(filemsg, file[at..at + n]);
      wire := wire + sent;
      body := Zeros(BUF_LEN);
      at := at + n;
    }
    WireEnd(head, body, tail, file);
  }

  lemma WireEnd(head: seq<byte>, body: seq<byte>, tail: seq<byte>, file: seq<byte>)
    requires |body| == BUF_LEN
    ensures Wire(head, body, tail, file[|file|..]) == []
  {
  }

  lemma WireStep(wire: seq<byte>, head: seq<byte>, body: seq<byte>, tail: seq<byte>, file: seq<byte>, at: nat)
    requires |body| == BUF_LEN && at < |file|
    ensures var n := Piece(|file| - at);
            wire + Wire(head, body, tail, file[at..])
            == wire + (head + file[at..at + n] + body[n..] + tail) + Wire(head, Zeros(BUF_LEN), tail, file[at + n..])
  {
    var n := Piece(|file| - at);
    assert file[at..][..n] == file[at..at + n] && file[at..][n..] == file[at + n..];
  }
}
