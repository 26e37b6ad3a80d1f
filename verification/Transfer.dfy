/** The file transfer end to end: what the receiver makes of everything, or of
    only the beginning, that the sender put on the wire. */
module Transfer {
  import opened Bytes
  import opened FileMsg
  import opened Receiver
  import Sender

  /** `packet` in round `k` of the outer loop. */
  function PacketOfRound(prev: Packet, s: seq<byte>, k: nat): Packet
    decreases k
  {
    if k == 0 then NextPacket(prev, s) else PacketOfRound(NextPacket(prev, s), Rest(s), k - 1)
  }

  /** On any stream at all the handled packets are its consecutive blocks; once
      it is exhausted, the rest laid over the last block, for ever. */
  lemma {:induction false} RoundsAreBlocks(prev: Packet, s: seq<byte>, k: nat)
    ensures var whole := |s| / PACKET_SIZE;
            PacketOfRound(prev, s, k)
            == if k < whole then s[k * PACKET_SIZE..(k + 1) * PACKET_SIZE]
               else NextPacket(if whole == 0 then prev else s[(whole - 1) * PACKET_SIZE..whole * PACKET_SIZE],
                               s[whole * PACKET_SIZE..])
    decreases k
  {
    hide NextPacket, Rest;
    var whole := |s| / PACKET_SIZE;
    FirstRound(prev, s);
    if k > 0 {
      var p, rest := NextPacket(prev, s), Rest(s);
      RoundsAreBlocks(p, rest, k - 1);
      if whole > 0 {
        LaterBlocks(s, whole - 1, whole);
        if k < whole {
          LaterBlocks(s, k - 1, k);
        } else if whole > 1 {
          LaterBlocks(s, whole - 2, whole - 1);
        }
      }
    }
  }

  lemma FirstRound(prev: Packet, s: seq<byte>)
    ensures |s| >= PACKET_SIZE ==> NextPacket(prev, s) == s[0..PACKET_SIZE]
    ensures |s| < PACKET_SIZE ==> s[0..] == s && Rest(s) == s
    ensures |s| < PACKET_SIZE ==> NextPacket(NextPacket(prev, s), s) == NextPacket(prev, s)
  {
  }

  /** The blocks of the rest of a stream are its later blocks. */
  lemma LaterBlocks(s: seq<byte>, a: nat, b: nat)
    requires a <= b && b * PACKET_SIZE <= |s| && PACKET_SIZE <= |s|
    ensures |Rest(s)| == |s| - PACKET_SIZE && |Rest(s)| / PACKET_SIZE == |s| / PACKET_SIZE - 1
    ensures (b + 1) * PACKET_SIZE <= |s| ==>
              Rest(s)[a * PACKET_SIZE..b * PACKET_SIZE] == s[(a + 1) * PACKET_SIZE..(b + 1) * PACKET_SIZE]
    ensures a * PACKET_SIZE <= |Rest(s)| ==> Rest(s)[a * PACKET_SIZE..] == s[(a + 1) * PACKET_SIZE..]
  {
  }

  /** `t` is a stream, possibly cut off anywhere, of packets for `file` that all
      announce the size `field`; names, the bytes behind the file's own, and
      whatever follows the last packet are arbitrary. */
  ghost predicate Carries(t: seq<byte>, field: seq<byte>, file: seq<byte>)
    requires |field| == SIZE_LEN
    decreases |file|
  {
    file != [] ==>
      var n := Piece(|file|);
      if |t| >= PACKET_SIZE then
        t[..SIZE_LEN] == field && t[BUF_AT..BUF_AT + n] == file[..n] && Carries(t[PACKET_SIZE..], field, file[n..])
      else if |t| >= SIZE_LEN then t[..SIZE_LEN] == field
      else t == field[..|t|]
  }

  /** The file contents the receiver ends up with: the sender's bytes while whole
      packets arrive, then, if the stream stops early, the buffer of the last
      packet in memory again and again. */
  function Mixed(prev: Packet, t: seq<byte>, file: seq<byte>): (r: seq<byte>)
    ensures |r| == |file|
    decreases |file|
  {
    if file == [] then []
    else
      var n := Piece(|file|);
      var p := NextPacket(prev, t);
      (if |t| >= PACKET_SIZE then file[..n] else Buf(p)[..n]) + Mixed(p, Rest(t), file[n..])
  }

  lemma {:induction false} MixedComplete(prev: Packet, t: seq<byte>, file: seq<byte>)
    requires |t| >= PacketCount(|file|) * PACKET_SIZE
    ensures Mixed(prev, t, file) == file
    decreases |file|
  {
    if file != [] {
      var n := Piece(|file|);
      MixedComplete(NextPacket(prev, t), Rest(t), file[n..]);
      assert file == file[..n] + file[n..];
    }
  }

  /** `len` bytes made of copies of one buffer. */
  function Repeated(buf: seq<byte>, len: nat): seq<byte>
    requires |buf| == BUF_LEN
  {
    if len <= BUF_LEN then buf[..len] else buf + Repeated(buf, len - BUF_LEN)
  }

  lemma {:induction false} MixedStale(prev: Packet, t: seq<byte>, file: seq<byte>)
    requires |t| < PACKET_SIZE
    ensures Mixed(prev, t, file) == Repeated(Buf(NextPacket(prev, t)), |file|)
    decreases |file|
  {
    var n := Piece(|file|);
    if n < |file| {
      var p := NextPacket(prev, t);
      assert NextPacket(p, t) == p;
      MixedStale(p, t, file[n..]);
    } else {
      assert Mixed(prev, t, file) == Buf(NextPacket(prev, t))[..n];
    }
  }

  lemma SizeKept(prev: Packet, t: seq<byte>, field: seq<byte>, file: seq<byte>)
    requires |field| == SIZE_LEN && file != [] && Carries(t, field, file)
    requires |t| >= SIZE_LEN || prev[..SIZE_LEN] == field
    ensures NextPacket(prev, t)[..SIZE_LEN] == field
    ensures SizeOf(NextPacket(prev, t)) == Le(field) % TWO64
  {
    assert NextPacket(prev, t)[..SIZE_LEN] == field;
  }

  lemma CarriesRest(prev: Packet, t: seq<byte>, field: seq<byte>, file: seq<byte>)
    requires |field| == SIZE_LEN && file != [] && Carries(t, field, file)
    ensures Carries(Rest(t), field, file[Piece(|file|)..])
    ensures |t| >= PACKET_SIZE ==> Buf(NextPacket(prev, t))[..Piece(|file|)] == file[..Piece(|file|)]
  {
    if |t| >= PACKET_SIZE {
      BufOfBlock(t, Piece(|file|));
    }
  }

  lemma BufOfBlock(t: seq<byte>, n: nat)
    requires |t| >= PACKET_SIZE && n <= BUF_LEN
    ensures Buf(t[..PACKET_SIZE])[..n] == t[BUF_AT..BUF_AT + n]
  {
    assert Buf(t[..PACKET_SIZE]) == t[BUF_AT..BUF_AT + BUF_LEN];
  }

  lemma MixedStep(prev: Packet, t: seq<byte>, file: seq<byte>)
    requires file != []
    requires var n := Piece(|file|); |t| >= PACKET_SIZE ==> Buf(NextPacket(prev, t))[..n] == file[..n]
    ensures var n, p := Piece(|file|), NextPacket(prev, t);
            Mixed(prev, t, file) == Buf(p)[..n] + Mixed(p, Rest(t), file[n..])
  {
  }

  lemma FinishStep(prev: Packet, t: seq<byte>, size: size_t, g: Progress)
    ensures var p := NextPacket(prev, t);
            var size' := size + WriteLen(p, size);
            Finish(prev, t, size, g)
            == if size' >= SizeOf(p) then Handle(g, p, size) else Finish(p, Rest(t), size', Handle(g, p, size))
  {
  }

  lemma PacketCountStep(len: nat)
    requires len > 0
    ensures PacketCount(len) == 1 + PacketCount(len - Piece(len))
  {
  }

  lemma NothingMixed(prev: Packet, t: seq<byte>, file: seq<byte>)
    requires file == []
    ensures Mixed(prev, t, file) == [] && PacketCount(|file|) == 0
  {
  }

  /** The receiver loop on such a stream, whatever it wrote before: as long as the
      announced size is the bytes written plus the file's, every packet's test and
      unsigned subtraction see a size above the bytes written. */
  lemma {:induction false} FinishMixed(prev: Packet, t: seq<byte>, field: seq<byte>, file: seq<byte>, size: size_t,
                                       g: Progress)
    requires |field| == SIZE_LEN && file != [] && Carries(t, field, file)
    requires |t| >= SIZE_LEN || prev[..SIZE_LEN] == field
    requires Le(field) == size + |file| < TWO64
    ensures size < SizeOf(NextPacket(prev, t)) && WriteLen(NextPacket(prev, t), size) == Piece(|file|)
    ensures Finish(prev, t, size, g)
         == Progress(if g.cnt == 0 then CString(NextPacket(prev, t)[SIZE_LEN..]) else g.name,
                     g.fp + Mixed(prev, t, file), g.cnt + PacketCount(|file|))
    decreases |file|
  {
    hide Carries, NextPacket, Rest, SizeOf, CString, Le, Finish, Mixed, PacketCount, Buf;
    var n := Piece(|file|);
    var p, left := NextPacket(prev, t), file[n..];
    SizeKept(prev, t, field, file);
    CarriesRest(prev, t, field, file);
    MixedStep(prev, t, file);
    FinishStep(prev, t, size, g);
    PacketCountStep(|file|);
    if left != [] {
      FinishMixed(p, Rest(t), field, left, size + n, Handle(g, p, size));
      Assoc(g.fp, Buf(p)[..n], Mixed(p, Rest(t), left));
    } else {
      NothingMixed(p, Rest(t), left);
      Assoc(g.fp, Buf(p)[..n], []);
    }
  }

  lemma Assoc(a: seq<byte>, b: seq<byte>, c: seq<byte>)
    ensures a + b + c == a + (b + c) && a + (b + []) == a + b
  {
    assert b + [] == b;
  }

  lemma WireFirst(head: seq<byte>, body: seq<byte>, tail: seq<byte>, file: seq<byte>, extra: seq<byte>)
    requires |body| == BUF_LEN && file != []
    ensures var n := Piece(|file|);
            Sender.Wire(head, body, tail, file) + extra
            == head + file[..n] + (body[n..] + tail) + (Sender.Wire(head, Zeros(BUF_LEN), tail, file[n..]) + extra)
  {
    hide Sender.Wire;
    var n := Piece(|file|);
    WireUnfolds(head, body, tail, file);
    Regroup(head + file[..n], body[n..], tail, Sender.Wire(head, Zeros(BUF_LEN), tail, file[n..]), extra);
  }

  lemma WireUnfolds(head: seq<byte>, body: seq<byte>, tail: seq<byte>, file: seq<byte>)
    requires |body| == BUF_LEN && file != []
    ensures var n := Piece(|file|);
            Sender.Wire(head, body, tail, file)
            == head + file[..n] + body[n..] + tail + Sender.Wire(head, Zeros(BUF_LEN), tail, file[n..])
  {
  }

  lemma Regroup(a: seq<byte>, b: seq<byte>, c: seq<byte>, d: seq<byte>, e: seq<byte>)
    ensures a + b + c + d + e == a + (b + c) + (d + e)
  {
  }

  lemma {:induction false} WireLength(head: seq<byte>, body: seq<byte>, tail: seq<byte>, file: seq<byte>)
    requires |head| == BUF_AT && |body| == BUF_LEN && |tail| == PACKET_SIZE - BUF_AT - BUF_LEN
    ensures |Sender.Wire(head, body, tail, file)| == PacketCount(|file|) * PACKET_SIZE
    decreases |file|
  {
    if file != [] {
      WireLength(head, Zeros(BUF_LEN), tail, file[Piece(|file|)..]);
      PacketCountStep(|file|);
    }
  }

  /** The first packet of a stream cut behind it, and what follows. */
  lemma FirstOfWire(head: seq<byte>, data: seq<byte>, pad: seq<byte>, more: seq<byte>, cut: nat)
    requires |head| == BUF_AT && |head| + |data| + |pad| == PACKET_SIZE <= cut <= PACKET_SIZE + |more|
    ensures var t := (head + data + pad + more)[..cut];
            && t[..BUF_AT] == head && t[BUF_AT..BUF_AT + |data|] == data
            && t[PACKET_SIZE..] == more[..cut - PACKET_SIZE]
  {
    var p := head + data + pad;
    var t := (p + more)[..cut];
    assert t == p + more[..cut - PACKET_SIZE];
    assert t == head + (data + (pad + more[..cut - PACKET_SIZE]));
  }

  lemma CarriesCons(t: seq<byte>, field: seq<byte>, file: seq<byte>)
    requires |field| == SIZE_LEN && file != [] && |t| >= PACKET_SIZE && t[..SIZE_LEN] == field
    requires var n := Piece(|file|); t[BUF_AT..BUF_AT + n] == file[..n] && Carries(t[PACKET_SIZE..], field, file[n..])
    ensures Carries(t, field, file)
  {
  }

  lemma CarriesShort(t: seq<byte>, field: seq<byte>, file: seq<byte>)
    requires |field| == SIZE_LEN && |t| < PACKET_SIZE
    requires file != [] ==> if |t| < SIZE_LEN then t == field[..|t|] else t[..SIZE_LEN] == field
    ensures Carries(t, field, file)
  {
  }

  lemma CarriesNothing(t: seq<byte>, field: seq<byte>)
    requires |field| == SIZE_LEN
    ensures Carries(t, field, [])
  {
  }

  lemma HeaderFirst(head: seq<byte>, more: seq<byte>, cut: nat)
    requires |head| == BUF_AT && cut <= BUF_AT + |more|
    ensures var m := if cut < BUF_AT then cut else BUF_AT; (head + more)[..cut][..m] == head[..m]
  {
  }

  /** What the sender sends is such a stream, at any cut. */
  lemma {:induction false} WireCarries(head: seq<byte>, body: seq<byte>, tail: seq<byte>, file: seq<byte>,
                                       extra: seq<byte>, cut: nat)
    requires |head| == BUF_AT && |body| == BUF_LEN && |tail| == PACKET_SIZE - BUF_AT - BUF_LEN
    requires cut <= |Sender.Wire(head, body, tail, file) + extra|
    ensures Carries((Sender.Wire(head, body, tail, file) + extra)[..cut], head[..SIZE_LEN], file)
    ensures var m := if cut < BUF_AT then cut else BUF_AT;
            file != [] ==> (Sender.Wire(head, body, tail, file) + extra)[..cut][..m] == head[..m]
    decreases |file|
  {
    hide Carries, Sender.Wire;
    var field, t := head[..SIZE_LEN], (Sender.Wire(head, body, tail, file) + extra)[..cut];
    if file == [] {
      CarriesNothing(t, field);
    } else {
      var n := Piece(|file|);
      var pad, more := body[n..] + tail, Sender.Wire(head, Zeros(BUF_LEN), tail, file[n..]) + extra;
      WireFirst(head, body, tail, file, extra);
      assert head + file[..n] + pad + more == head + (file[..n] + pad + more);
      HeaderFirst(head, file[..n] + pad + more, cut);
      if cut >= PACKET_SIZE {
        FirstOfWire(head, file[..n], pad, more, cut);
        WireCarries(head, Zeros(BUF_LEN), tail, file[n..], extra, cut - PACKET_SIZE);
        assert t[..SIZE_LEN] == t[..BUF_AT][..SIZE_LEN];
        CarriesCons(t, field, file);
      } else {
        var m := if cut < BUF_AT then cut else BUF_AT;
        assert cut >= SIZE_LEN ==> t[..SIZE_LEN] == t[..m][..SIZE_LEN];
        assert cut < SIZE_LEN ==> t == t[..m] && field[..cut] == head[..m];
        CarriesShort(t, field, file);
      }
    }
  }

  /** The name as the receiver prints and opens it, whatever follows it. */
  lemma NameRead(p: Packet, name: seq<byte>)
    requires |name| < NAME_LEN && NUL !in name
    requires p[SIZE_LEN..SIZE_LEN + |name| + 1] == name + [NUL]
    ensures CString(p[SIZE_LEN..]) == name
  {
    var junk := p[SIZE_LEN + |name| + 1..];
    assert p[SIZE_LEN..] == p[SIZE_LEN..SIZE_LEN + |name| + 1] + junk;
    CStringOf(name, junk);
  }

  lemma NameArrives(before: Packet, name: seq<byte>, size: nat, prev: Packet, t: seq<byte>)
    requires |name| < NAME_LEN && SIZE_LEN + |name| + 1 <= |t|
    requires var m := if |t| < BUF_AT then |t| else BUF_AT; t[..m] == Sender.Header(before, name, size)[..m]
    ensures NextPacket(prev, t)[SIZE_LEN..SIZE_LEN + |name| + 1] == name + [NUL]
  {
    var n := SIZE_LEN + |name| + 1;
    var m := if |t| < BUF_AT then |t| else BUF_AT;
    assert NextPacket(prev, t)[SIZE_LEN..n] == t[SIZE_LEN..n];
    NameInHeader(before, name, size);
    hide Sender.Header;
    SliceOfPrefix(t, m, SIZE_LEN, n);
    SliceOfPrefix(Sender.Header(before, name, size), m, SIZE_LEN, n);
  }

  lemma NameInHeader(before: Packet, name: seq<byte>, size: nat)
    requires |name| < NAME_LEN
    ensures Sender.Header(before, name, size)[SIZE_LEN..SIZE_LEN + |name| + 1] == name + [NUL]
  {
    var field, old' := LeBytes(size, SIZE_LEN), before[SIZE_LEN + |name| + 1..BUF_AT];
    assert Sender.Header(before, name, size) == field + (name + [NUL]) + old';
  }

  /** End to end, for every file, former contents of the sender's packet, cut of
      the connection into `recv` results, and cut-off point behind the size field;
      the name is read right as soon as its terminator arrived. */
  lemma TransferExact(file: seq<byte>, name: seq<byte>, before: Packet, extra: seq<byte>, chunks: seq<seq<byte>>,
                      garbage: Packet)
    requires 0 < |file| < TWO64 / 2 && |name| < NAME_LEN && NUL !in name
    requires var head := Sender.Header(before, name, |file|);
             SIZE_LEN <= |Concat(chunks)|
             && Concat(chunks) <= Sender.Wire(head, Buf(before), before[BUF_AT + BUF_LEN..], file) + extra
    ensures Received(garbage, Concat(chunks)).fp == Mixed(garbage, Concat(chunks), file)
    ensures Received(garbage, Concat(chunks)).cnt == PacketCount(|file|)
    ensures |Concat(chunks)| > SIZE_LEN + |name| ==> Received(garbage, Concat(chunks)).name == name
  {
    hide Carries, Finish, Mixed, Concat, CString, Sender.Wire;
    var head := Sender.Header(before, name, |file|);
    var tail := before[BUF_AT + BUF_LEN..];
    var t := Concat(chunks);
    var whole := Sender.Wire(head, Buf(before), tail, file) + extra;
    WireCarries(head, Buf(before), tail, file, extra, |t|);
    assert t == whole[..|t|];
    var field := head[..SIZE_LEN];
    assert field == LeBytes(|file|, SIZE_LEN);
    EightBytes();
    LeRoundTrip(|file|, SIZE_LEN);
    FinishMixed(garbage, t, field, file, 0, Progress([], [], 0));
    if |t| > SIZE_LEN + |name| {
      NameArrives(before, name, |file|, garbage, t);
      NameRead(NextPacket(garbage, t), name);
    }
  }

  /** The round trip: when all of the file's packets arrive, the receiver opens
      the file's name, writes exactly its bytes, and stops after its last packet. */
  lemma RoundTrip(file: seq<byte>, name: seq<byte>, before: Packet, extra: seq<byte>, chunks: seq<seq<byte>>,
                  garbage: Packet)
    requires 0 < |file| < TWO64 / 2 && |name| < NAME_LEN && NUL !in name
    requires Concat(chunks)
          == Sender.Wire(Sender.Header(before, name, |file|), Buf(before), before[BUF_AT + BUF_LEN..], file) + extra
    ensures Received(garbage, Concat(chunks)) == Progress(name, file, PacketCount(|file|))
  {
    hide Received, Mixed, Buf, Concat, PacketCount, Sender.Wire, Sender.Header;
    var head, tail := Sender.Header(before, name, |file|), before[BUF_AT + BUF_LEN..];
    var wire := Sender.Wire(head, Buf(before), tail, file);
    WireLength(head, Buf(before), tail, file);
    PacketCountStep(|file|);
    assert |wire| >= PACKET_SIZE && |Concat(chunks)| == |wire| + |extra|;
    TransferExact(file, name, before, extra, chunks, garbage);
    MixedComplete(garbage, Concat(chunks), file);
  }

  lemma MixedWhole(prev: Packet, t: seq<byte>, file: seq<byte>)
    requires |t| >= PACKET_SIZE && |file| >= BUF_LEN
    ensures |Rest(t)| == |t| - PACKET_SIZE
    ensures Mixed(prev, t, file) == file[..BUF_LEN] + Mixed(NextPacket(prev, t), Rest(t), file[BUF_LEN..])
  {
  }

  /** The packet in memory when the stream `t` is exhausted. */
  function LastPacket(prev: Packet, t: seq<byte>): Packet {
    var whole := |t| / PACKET_SIZE;
    NextPacket(if whole == 0 then prev else t[(whole - 1) * PACKET_SIZE..whole * PACKET_SIZE], t[whole * PACKET_SIZE..])
  }

  lemma LastPacketRest(prev: Packet, t: seq<byte>)
    requires |t| >= PACKET_SIZE
    ensures LastPacket(prev, t) == LastPacket(NextPacket(prev, t), Rest(t))
  {
    hide NextPacket, Rest;
    var whole := |t| / PACKET_SIZE;
    FirstRound(prev, t);
    LaterBlocks(t, whole - 1, whole);
    if whole > 1 {
      LaterBlocks(t, whole - 2, whole - 1);
    }
  }

  /** A stream that stops before the file's packets are there, at whatever byte:
      the pieces of the whole packets, then copies of the buffer left in memory. */
  lemma {:induction false} MixedCut(prev: Packet, t: seq<byte>, file: seq<byte>)
    requires |t| / PACKET_SIZE * BUF_LEN < |file|
    ensures var k := |t| / PACKET_SIZE * BUF_LEN;
            Mixed(prev, t, file) == file[..k] + Repeated(Buf(LastPacket(prev, t)), |file| - k)
    decreases |file|
  {
    hide Mixed, NextPacket, Rest, Repeated, Buf, LastPacket;
    if |t| < PACKET_SIZE {
      MixedStale(prev, t, file);
      OnlyLeftover(prev, t);
    } else {
      var rest, left := Rest(t), file[BUF_LEN..];
      MixedWhole(prev, t, file);
      assert |rest| / PACKET_SIZE == |t| / PACKET_SIZE - 1;
      MixedCut(NextPacket(prev, t), rest, left);
      LastPacketRest(prev, t);
      var k := |t| / PACKET_SIZE * BUF_LEN;
      assert file[..k] == file[..BUF_LEN] + left[..k - BUF_LEN];
    }
  }

  lemma OnlyLeftover(prev: Packet, t: seq<byte>)
    requires |t| < PACKET_SIZE
    ensures LastPacket(prev, t) == NextPacket(prev, t)
  {
    assert t[0..] == t;
  }

  lemma SameAppend(a: seq<byte>, b: seq<byte>, n: nat)
    requires n <= |a|
    ensures a == a[..n] + b <==> a[n..] == b
  {
    assert a == a[..n] + a[n..];
    assert (a[..n] + b)[n..] == b;
  }

  /** The connection closes early, at any byte behind the size field but before the
      last packet is complete. The receiver still announces completion, after the
      full count of packets, and writes a file of the announced length: the pieces
      of the `k` whole packets, then, again and again, the buffer of the last packet
      as overwritten by the bytes behind them. That is the sender's file exactly
      when the file goes on like that. */
  lemma ClosedEarly(file: seq<byte>, name: seq<byte>, before: Packet, chunks: seq<seq<byte>>, garbage: Packet)
    requires 0 < |file| < TWO64 / 2 && |name| < NAME_LEN && NUL !in name
    requires var head := Sender.Header(before, name, |file|);
             SIZE_LEN <= |Concat(chunks)| < PacketCount(|file|) * PACKET_SIZE
             && Concat(chunks) <= Sender.Wire(head, Buf(before), before[BUF_AT + BUF_LEN..], file)
    ensures var t := Concat(chunks);
            var k := |t| / PACKET_SIZE;
            && k * BUF_LEN < |file|
            && var copies := Repeated(Buf(LastPacket(garbage, t)), |file| - k * BUF_LEN);
               && Received(garbage, t).fp == file[..k * BUF_LEN] + copies
               && Received(garbage, t).cnt == PacketCount(|file|)
               && (Received(garbage, t).fp == file <==> file[k * BUF_LEN..] == copies)
    ensures |Concat(chunks)| > SIZE_LEN + |name| ==> Received(garbage, Concat(chunks)).name == name
  {
    hide Received, Mixed, LastPacket, Repeated, Buf, Concat, PacketCount, Sender.Wire, Sender.Header;
    var t := Concat(chunks);
    var wire := Sender.Wire(Sender.Header(before, name, |file|), Buf(before), before[BUF_AT + BUF_LEN..], file);
    assert wire + [] == wire;
    TransferExact(file, name, before, [], chunks, garbage);
    CutInside(|t|, |file|);
    MixedCut(garbage, t, file);
    var k := |t| / PACKET_SIZE * BUF_LEN;
    SameAppend(file, Repeated(Buf(LastPacket(garbage, t)), |file| - k), k);
  }

  lemma CutInside(cut: nat, len: nat)
    requires cut < PacketCount(len) * PACKET_SIZE
    ensures cut / PACKET_SIZE * BUF_LEN < len
  {
  }

  /** As long as whole packets arrive, what they carry is in its place. */
  lemma ArrivedInPlace(file: seq<byte>, name: seq<byte>, before: Packet, chunks: seq<seq<byte>>, garbage: Packet)
    requires 0 < |file| < TWO64 / 2 && |name| < NAME_LEN && NUL !in name
    requires var head := Sender.Header(before, name, |file|);
             SIZE_LEN <= |Concat(chunks)|
             && Concat(chunks) <= Sender.Wire(head, Buf(before), before[BUF_AT + BUF_LEN..], file)
    ensures |Received(garbage, Concat(chunks)).fp| == |file|
    ensures forall j :: 0 <= j < |file| && j < |Concat(chunks)| / PACKET_SIZE * BUF_LEN ==>
              Received(garbage, Concat(chunks)).fp[j] == file[j]
  {
    hide Received, Mixed, LastPacket, Repeated, Buf, Sender.Wire, Sender.Header;
    var t := Concat(chunks);
    var wire := Sender.Wire(Sender.Header(before, name, |file|), Buf(before), before[BUF_AT + BUF_LEN..], file);
    assert wire + [] == wire;
    TransferExact(file, name, before, [], chunks, garbage);
    if |t| / PACKET_SIZE * BUF_LEN < |file| {
      MixedCut(garbage, t, file);
    } else {
      MixedComplete(garbage, t, file);
    }
  }

  /** A file of two packets, cut off 30 bytes into the second: the last byte the
      receiver writes is the first packet's zero and not the file's one. */
  lemma EarlyCloseCorrupts(name: seq<byte>, before: Packet, garbage: Packet)
    returns (file: seq<byte>, chunks: seq<seq<byte>>)
    requires |name| < NAME_LEN && NUL !in name
    ensures forall c :: c in chunks ==> 1 <= |c| <= PACKET_SIZE
    ensures file == Zeros(BUF_LEN) + [1]
    ensures var head := Sender.Header(before, name, |file|);
            |Concat(chunks)| == PACKET_SIZE + 30
            && Concat(chunks) <= Sender.Wire(head, Buf(before), before[BUF_AT + BUF_LEN..], file)
    ensures Received(garbage, Concat(chunks)) == Progress(name, Zeros(BUF_LEN) + [NUL], 2)
  {
    hide Received, Sender.Header;
    file := Zeros(BUF_LEN) + [1];
    var head, tail := Sender.Header(before, name, |file|), before[BUF_AT + BUF_LEN..];
    var wire := Sender.Wire(head, Buf(before), tail, file);
    assert |wire| == 2 * PACKET_SIZE by {
      WireLength(head, Buf(before), tail, file);
    }
    var t := wire[..PACKET_SIZE + 30];
    chunks := [t[..PACKET_SIZE], t[PACKET_SIZE..]];
    ConcatTwo(t[..PACKET_SIZE], t[PACKET_SIZE..]);
    assert Concat(chunks) == t;
    ClosedEarly(file, name, before, chunks, garbage);
    assert file[..BUF_LEN] == Zeros(BUF_LEN);
    assert Buf(LastPacket(garbage, t))[0] == NUL by {
      SecondPacketStarts(garbage, t);
      FirstByte(head, Buf(before), tail, file);
    }
  }

  lemma SecondPacketStarts(prev: Packet, t: seq<byte>)
    requires PACKET_SIZE <= |t| <= PACKET_SIZE + BUF_AT
    ensures Buf(LastPacket(prev, t))[0] == t[BUF_AT]
  {
    assert |t| / PACKET_SIZE == 1;
    assert LastPacket(prev, t) == t[PACKET_SIZE..] + t[..PACKET_SIZE][|t| - PACKET_SIZE..];
  }

  lemma FirstByte(head: seq<byte>, body: seq<byte>, tail: seq<byte>, file: seq<byte>)
    requires |head| == BUF_AT && |body| == BUF_LEN && file != []
    ensures var w := Sender.Wire(head, body, tail, file); |w| > BUF_AT && w[BUF_AT] == file[0]
  {
    var n := Piece(|file|);
    var w := Sender.Wire(head, body, tail, file);
    var more := body[n..] + tail + Sender.Wire(head, Zeros(BUF_LEN), tail, file[n..]);
    assert w == head + (file[..n] + more);
  }
}
