/** Packet reassembly and file writing in the file receiver (`child_do`), proved
    to be a function of the byte stream alone. */
module Receiver {
  import opened Bytes
  import opened FileMsg

  // ---------------------------------------------------------------- the stream semantics

  /** `packet` after the inner loop, when `s` is what the connection still
      delivers: the next whole block, or, when the peer closed early, whatever
      arrived laid over the packet handled before. */
  function NextPacket(prev: Packet, s: seq<byte>): Packet {
    if |s| >= PACKET_SIZE then s[..PACKET_SIZE] else s + prev[|s|..]
  }

  function Rest(s: seq<byte>): seq<byte> {
    if |s| >= PACKET_SIZE then s[PACKET_SIZE..] else s
  }

  /** `packet.size - size`: a `long` minus a `size_t` is unsigned and wraps. */
  function Remaining(p: Packet, size: size_t): (r: size_t)
    ensures r == (SizeOf(p) - size) % TWO64
  {
    if size <= SizeOf(p) then SizeOf(p) - size else TWO64 - (size - SizeOf(p))
  }

  function WriteLen(p: Packet, size: size_t): (n: nat)
    ensures n <= BUF_LEN && (size < SizeOf(p) ==> 0 < n <= SizeOf(p) - size)
  {
    if Remaining(p, size) >= BUF_LEN then BUF_LEN else Remaining(p, size)
  }

  /** The opened file's name, the bytes written to it, and the packets handled. */
  datatype Progress = Progress(name: seq<byte>, fp: seq<byte>, cnt: nat)

  function Handle(g: Progress, p: Packet, size: size_t): Progress {
    Progress(if g.cnt == 0 then CString(p[SIZE_LEN..]) else g.name, g.fp + Buf(p)[..WriteLen(p, size)], g.cnt + 1)
  }

  /** The whole run from a state in which `size` bytes are written, `packet` holds
      `prev` and the connection still delivers `s`. */
  function Finish(prev: Packet, s: seq<byte>, size: size_t, g: Progress): Progress
    decreases TWO64 - size
  {
    var p := NextPacket(prev, s);
    var size' := size + WriteLen(p, size);
    if size' >= SizeOf(p) then Handle(g, p, size) else Finish(p, Rest(s), size', Handle(g, p, size))
  }

  /** What the receiver makes of a connection that delivers `stream`. */
  function Received(garbage: Packet, stream: seq<byte>): Progress {
    Finish(garbage, stream, 0, Progress([], [], 0))
  }

  // ---------------------------------------------------------------- the program

  /** A successful `recv` into `packet_t`. */
  method Recv(chunk: seq<byte>, packetT: array<byte>)
    requires packetT.Length == PACKET_SIZE && |chunk| <= PACKET_SIZE
    modifies packetT
    ensures packetT[..|chunk|] == chunk
  {
    forall k | 0 <= k < |chunk| {
      packetT[k] := chunk[k];
    }
  }

  /** What the copies of the inner loop amount to, `old'` being the packet before
      and `t` the receive buffer. */
  lemma CopyJoins(old': seq<byte>, t: seq<byte>, chunk: seq<byte>, offset: nat)
    requires |old'| == |t| == PACKET_SIZE && offset < PACKET_SIZE && |chunk| <= PACKET_SIZE && t[..|chunk|] == chunk
    ensures var n := offset + |chunk|;
            if n <= PACKET_SIZE then old'[..offset] + t[0..|chunk|] + old'[n..] == old'[..offset] + chunk + old'[n..]
            else
              var fits := PACKET_SIZE - offset;
              && old'[..offset] + t[0..fits] + old'[PACKET_SIZE..] == (old'[..offset] + chunk)[..PACKET_SIZE]
              && t[fits..|chunk|] == (old'[..offset] + chunk)[PACKET_SIZE..]
  {
  }

  /** One turn of the inner loop: the exact fit, the partial packet and the sticky
      packet. `full` says whether the loop is left. */
  method Absorb(chunk: seq<byte>, packet: array<byte>, packetT: array<byte>, packetPre: array<byte>, offset: nat)
    returns (offset': nat, flag: nat, full: bool)
    requires packet.Length == packetT.Length == packetPre.Length == PACKET_SIZE
    requires packet != packetT && packet != packetPre && packetT != packetPre
    requires offset < PACKET_SIZE && 1 <= |chunk| <= PACKET_SIZE
    modifies packet, packetT, packetPre
    ensures full == (offset + |chunk| >= PACKET_SIZE) && offset' < PACKET_SIZE
    ensures var joined := old(packet[..offset]) + chunk;
            if full then
              && packet[..] == joined[..PACKET_SIZE] && offset' == 0
              && flag == |joined| - PACKET_SIZE <= offset && packetPre[..flag] == joined[PACKET_SIZE..]
            else
              && packet[..offset'] == joined && packet[offset'..] == old(packet[offset + |chunk|..])
              && offset' == |joined| && flag == 0
  {
    Recv(chunk, packetT);
    CopyJoins(packet[..], packetT[..], chunk, offset);
    var recvSize := |chunk|;
    if offset + recvSize == PACKET_SIZE {
      MemCpy(packet, offset, packetT, 0, recvSize);
      offset', flag, full := 0, 0, true;
    } else if offset + recvSize < PACKET_SIZE {
      MemCpy(packet, offset, packetT, 0, recvSize);
      offset', flag, full := offset + recvSize, 0, false;
    } else {
      flag := recvSize - (PACKET_SIZE - offset);
      MemCpy(packet, offset, packetT, 0, PACKET_SIZE - offset);
      MemCpy(packetPre, 0, packetT, PACKET_SIZE - offset, flag);
      offset', full := 0, true;
    }
  }

  lemma BlockDone(prev: Packet, joined: seq<byte>, more: seq<byte>)
    requires |joined| >= PACKET_SIZE
    ensures NextPacket(prev, joined + more) == joined[..PACKET_SIZE]
    ensures Rest(joined + more) == joined[PACKET_SIZE..] + more
  {
  }

  lemma StreamEnds(prev: Packet, packet: seq<byte>, s: seq<byte>)
    requires |s| < PACKET_SIZE == |packet| && packet[..|s|] == s && packet[|s|..] == prev[|s|..]
    ensures NextPacket(prev, s) == packet && Rest(s) == s
  {
    assert packet == packet[..|s|] + packet[|s|..];
  }

  /** `s` is what the connection still delivers: the bytes that arrived but
      belong to no handled packet (the parked carry if there is one, else the
      filled part of `packet`), then the chunks from index `i` on. */
  ghost predicate Pending(packet: seq<byte>, packetPre: seq<byte>, offset: nat, flag: nat,
                          chunks: seq<seq<byte>>, i: nat, s: seq<byte>)
  {
    && |packet| == |packetPre| == PACKET_SIZE && offset < PACKET_SIZE && flag < PACKET_SIZE && i <= |chunks|
    && s == (if flag != 0 then packetPre[..flag] else packet[..offset]) + Concat(chunks[i..])
  }

  /** The inner `recv` loop: fills `packet` from `offset` on, taking chunks from
      index `i` on; a `recv` past the last chunk returns 0. */
  method FillPacket(chunks: seq<seq<byte>>, i: nat, packet: array<byte>, packetT: array<byte>,
                    packetPre: array<byte>, offset: nat, ghost s: seq<byte>)
    returns (j: nat, offset': nat, flag: nat)
    requires packet.Length == packetT.Length == packetPre.Length == PACKET_SIZE
    requires packet != packetT && packet != packetPre && packetT != packetPre
    requires i <= |chunks| && offset < PACKET_SIZE && s == packet[..offset] + Concat(chunks[i..])
    requires forall c :: c in chunks ==> 1 <= |c| <= PACKET_SIZE
    modifies packet, packetT, packetPre
    ensures packet[..] == NextPacket(old(packet[..]), s)
    ensures Pending(packet[..], packetPre[..], offset', flag, chunks, j, Rest(s))
  {
    hide Concat, NextPacket, Rest;
    ghost var prev := packet[..];
    j, offset', flag := i, offset, 0;
    while j < |chunks|
      invariant i <= j <= |chunks| && offset' < PACKET_SIZE && flag == 0
      invariant packet[..offset'] + Concat(chunks[j..]) == s
      invariant packet[offset'..] == prev[offset'..]
    {
      var chunk := chunks[j];
      ghost var joined, more := packet[..offset'] + chunk, Concat(chunks[j + 1..]);
      ConcatFrom(chunks, j);
      Joined(packet[..offset'], chunk, more);
      if offset' + |chunk| <= PACKET_SIZE {
        TailOfTail(packet[..], offset', |chunk|);
        TailOfTail(prev, offset', |chunk|);
      }
      var full;
      offset', flag, full := Absorb(chunk, packet, packetT, packetPre, offset');
      j := j + 1;
      if full {
        BlockDone(prev, joined, more);
        return;
      }
    }
    ConcatFrom(chunks, j);
    assert s == packet[..offset'];
    StreamEnds(prev, packet[..], s);
  }

  lemma CarryRestored(prev: Packet, packet: Packet, flag: nat, s: seq<byte>)
    requires flag <= |s| && flag <= PACKET_SIZE && packet[flag..] == prev[flag..]
    ensures NextPacket(packet, s) == NextPacket(prev, s)
  {
    if |s| < PACKET_SIZE {
      assert packet[|s|..] == packet[flag..][|s| - flag..] == prev[flag..][|s| - flag..] == prev[|s|..];
    }
  }

  /** The start of the outer loop's body: restore the carry, fill the packet. */
  method NextIntoPacket(chunks: seq<seq<byte>>, i: nat, packet: array<byte>, packetT: array<byte>,
                        packetPre: array<byte>, offset: nat, flag: nat, ghost s: seq<byte>)
    returns (j: nat, offset': nat, flag': nat)
    requires packet.Length == packetT.Length == packetPre.Length == PACKET_SIZE
    requires packet != packetT && packet != packetPre && packetT != packetPre
    requires Pending(packet[..], packetPre[..], offset, flag, chunks, i, s)
    requires forall c :: c in chunks ==> 1 <= |c| <= PACKET_SIZE
    modifies packet, packetT, packetPre
    ensures packet[..] == NextPacket(old(packet[..]), s)
    ensures Pending(packet[..], packetPre[..], offset', flag', chunks, j, Rest(s))
  {
    hide Concat, NextPacket, Rest;
    ghost var prev := packet[..];
    offset' := offset;
    if flag != 0 {
      MemCpy(packet, 0, packetPre, 0, flag);
      offset' := flag;
      assert packet[..flag] == packetPre[..flag];
      CarryRestored(prev, packet[..], flag, s);
    }
    j, offset', flag' := FillPacket(chunks, i, packet, packetT, packetPre, offset', s);
  }

  /** The rest of the outer loop's body: name the file once, compare the unsigned
      difference with the buffer's size, write. */
  method WritePacket(packet: array<byte>, size: size_t, name: seq<byte>, fp: seq<byte>, cnt: nat)
    returns (complete: bool, size': nat, name': seq<byte>, fp': seq<byte>, cnt': nat)
    requires packet.Length == PACKET_SIZE
    ensures Progress(name', fp', cnt') == Handle(Progress(name, fp, cnt), packet[..], size)
    ensures |fp'| - |fp| == size' - size == WriteLen(packet[..], size)
    ensures complete <==> size' >= SizeOf(packet[..])
    ensures size < SizeOf(packet[..]) ==>
              && size' == size + Piece(SizeOf(packet[..]) - size)
              && (complete <==> size' == SizeOf(packet[..]))
    ensures size >= SizeOf(packet[..]) ==> complete
  {
    var announced := SizeOf(packet[..]);
    var difference := (announced - size) % TWO64;
    name', cnt' := name, cnt + 1;
    if cnt == 0 {
      name' := CString(packet[SIZE_LEN..]);
    }
    var writeSize;
    if difference >= BUF_LEN {
      writeSize := BUF_LEN;
    } else {
      writeSize := difference;
    }
    assert packet[BUF_AT..BUF_AT + writeSize] == Buf(packet[..])[..writeSize];
    fp' := fp + packet[BUF_AT..BUF_AT + writeSize];
    size' := size + writeSize;
    complete := size' >= announced;
  }

  /** A local `struct FileMsg` without an initialiser. */
  method NewPacket(garbage: Packet) returns (packet: array<byte>)
    ensures fresh(packet) && packet.Length == PACKET_SIZE && packet[..] == garbage
  {
    packet := new byte[PACKET_SIZE];
    forall k | 0 <= k < PACKET_SIZE {
      packet[k] := garbage[k];
    }
  }

  /** `child_do`: `chunks` are the results of the successive `recv`s, `garbage`
      the indeterminate contents of the packet variables. */
  method ChildDo(chunks: seq<seq<byte>>, garbage: Packet)
    returns (name: seq<byte>, fp: seq<byte>, cnt: nat)
    requires forall c :: c in chunks ==> 1 <= |c| <= PACKET_SIZE
    ensures Progress(name, fp, cnt) == Received(garbage, Concat(chunks))
  {
    hide NextPacket, Rest, Handle, WriteLen, SizeOf;
    var packet := NewPacket(garbage);
    var packetT := NewPacket(garbage);
    var packetPre := NewPacket(garbage);
    assert chunks[0..] == chunks;
    var size: size_t, offset: nat, flag: nat, i: nat, complete := 0, 0, 0, 0, false;
    name, fp, cnt := [], [], 0;
    ghost var prev, s := garbage, Concat(chunks);
    while true
      invariant packet[..] == prev && Pending(prev, packetPre[..], offset, flag, chunks, i, s)
      invariant Finish(prev, s, size, Progress(name, fp, cnt)) == Received(garbage, Concat(chunks))
      decreases TWO64 - size
    {
      i, offset, flag := NextIntoPacket(chunks, i, packet, packetT, packetPre, offset, flag, s);
      prev, s := NextPacket(prev, s), Rest(s);
      var size';
      complete, size', name, fp, cnt := WritePacket(packet, size, name, fp, cnt);
      if complete {
        return;
      }
      size := size';
    }
  }
}
