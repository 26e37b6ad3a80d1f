/** `struct FileMsg`, the fixed-size packet of the file transfer: an eight-byte
    size, a 50-byte name, a 4096-byte buffer, and six bytes of alignment. */
module FileMsg {
  import opened Bytes

  const SIZE_LEN := 8
  const NAME_LEN := 50
  const BUF_AT := SIZE_LEN + NAME_LEN
  const BUF_LEN := 4096
  const PACKET_SIZE := 4160
  const TWO64 := 0x1_0000_0000_0000_0000

  type size_t = x: int | 0 <= x < TWO64

  type Packet = s: seq<byte> | |s| == PACKET_SIZE witness Zeros(PACKET_SIZE)

  /** Little-endian value of the bytes. */
  function Le(s: seq<byte>): nat {
    if s == [] then 0 else s[0] + 256 * Le(s[1..])
  }

  function LeBytes(n: nat, width: nat): (s: seq<byte>)
    ensures |s| == width
  {
    if width == 0 then [] else [n % 256] + LeBytes(n / 256, width - 1)
  }

  function Pow256(k: nat): (r: nat)
    ensures r > 0
  {
    if k == 0 then 1 else 256 * Pow256(k - 1)
  }

  lemma {:induction false} LeRoundTrip(n: nat, width: nat)
    requires n < Pow256(width)
    ensures Le(LeBytes(n, width)) == n
  {
    if width > 0 {
      LeRoundTrip(n / 256, width - 1);
    }
  }

  lemma EightBytes()
    ensures Pow256(8) == TWO64
  {
    assert Pow256(2) == 0x1_0000;
    assert Pow256(4) == 0x1_0000_0000;
    assert Pow256(6) == 0x1_0000_0000_0000;
  }

  /** `packet.size` as the `size_t` it is converted to in every comparison. */
  function SizeOf(p: Packet): size_t {
    Le(p[..SIZE_LEN]) % TWO64
  }

  function Buf(p: Packet): (b: seq<byte>)
    ensures |b| == BUF_LEN
  {
    p[BUF_AT..BUF_AT + BUF_LEN]
  }

  /** How many bytes one `fread` of a whole buffer takes from what is left. */
  function Piece(left: nat): nat {
    if left < BUF_LEN then left else BUF_LEN
  }

  /** Packets needed for `len` bytes. */
  function PacketCount(len: nat): nat {
    (len + BUF_LEN - 1) / BUF_LEN
  }

  /** `dst[at..at + n] = src[from..from + n]`, as `memcpy` does it. */
  method MemCpy(dst: array<byte>, at: nat, src: array<byte>, from: nat, n: nat)
    requires at + n <= dst.Length && from + n <= src.Length && dst != src
    modifies dst
    ensures dst[..] == old(dst[..at]) + src[from..from + n] + old(dst[at + n..])
  {
    forall i | 0 <= i < n {
      dst[at + i] := src[from + i];
    }
  }
}
