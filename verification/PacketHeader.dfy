// PacketHeader: the header in front of a packet's checksums and data. All fields
// have a fixed length, so the header always takes 31 bytes.

module PacketHeaders {
  import opened Bytes
  import opened Octets

  const HEADER_SIZE: nat := 31
  const PROTO_SIZE: nat := 25

  datatype Header = Header(packetLen: nat, offsetInBlock: nat, seqno: nat, lastPacketInBlock: bool, dataLen: nat) {
    // The fields fit the signed integers they are written as.
    ghost predicate InRange() {
      && packetLen < 0x8000_0000 && dataLen < 0x8000_0000
      && offsetInBlock < 0x8000_0000_0000_0000 && seqno < 0x8000_0000_0000_0000
    }
  }

  // The low n bytes of x, least significant first.
  function Little(x: nat, n: nat): (v: Vec)
    ensures |v| == n
  {
    if n == 0 then [] else [Octet(x % 256)] + Little(x / 256, n - 1)
  }

  // The low n bytes of x, most significant first.
  function Big(x: nat, n: nat): (v: Vec)
    ensures |v| == n
  {
    if n == 0 then [] else Big(x / 256, n - 1) + [Octet(x % 256)]
  }

  function FromLittle(v: Vec): nat {
    if v == [] then 0 else Value(v[0]) + 256 * FromLittle(v[1..])
  }

  function FromBig(v: Vec): nat {
    if v == [] then 0 else 256 * FromBig(v[..|v| - 1]) + Value(v[|v| - 1])
  }

  function Pow256(n: nat): nat {
    if n == 0 then 1 else 256 * Pow256(n - 1)
  }

  lemma LittleStep(b: Byte, v: Vec)
    ensures FromLittle([b] + v) == Value(b) + 256 * FromLittle(v)
  {
    hide Value;
    assert ([b] + v)[1..] == v;
  }

  lemma {:induction false} LittleBack(x: nat, n: nat)
    requires x < Pow256(n)
    ensures FromLittle(Little(x, n)) == x
  {
    if n != 0 {
      hide Octet, Value;
      LittleBack(x / 256, n - 1);
      ValueOfOctet(x % 256);
      LittleStep(Octet(x % 256), Little(x / 256, n - 1));
    }
  }

  lemma BigStep(v: Vec, b: Byte)
    ensures FromBig(v + [b]) == 256 * FromBig(v) + Value(b)
  {
    hide Value;
    assert (v + [b])[..|v|] == v;
  }

  lemma {:induction false} BigBack(x: nat, n: nat)
    requires x < Pow256(n)
    ensures FromBig(Big(x, n)) == x
  {
    if n != 0 {
      hide Octet, Value;
      BigBack(x / 256, n - 1);
      ValueOfOctet(x % 256);
      BigStep(Big(x / 256, n - 1), Octet(x % 256));
    }
  }

  // The four fields as protocol buffers, each behind its tag.
  function Proto(h: Header): (v: Vec)
    ensures |v| == PROTO_SIZE
  {
    [0x09] + Little(h.offsetInBlock, 8) + [0x11] + Little(h.seqno, 8) +
    [0x18, if h.lastPacketInBlock then 1 else 0] + [0x25] + Little(h.dataLen, 4)
  }

  function Fields(h: Header): (v: Vec)
    ensures |v| == HEADER_SIZE
  {
    Big(h.packetLen, 4) + Big(PROTO_SIZE, 2) + Proto(h)
  }

  // writeInBuffer.
  function Encode(h: Header): (v: Vec)
    ensures |v| == HEADER_SIZE
  {
    seq(HEADER_SIZE, i requires 0 <= i < HEADER_SIZE => Fields(h)[i])
  }

  // readFields on a header with the four fields in order.
  function Decode(v: Vec): Option<Header> {
    if |v| != HEADER_SIZE || FromBig(v[0..4]) < 4 || FromBig(v[4..6]) != PROTO_SIZE then None
    else if v[6] != 0x09 || v[15] != 0x11 || v[24] != 0x18 || v[26] != 0x25 then None
    else Some(Header(FromBig(v[0..4]), FromLittle(v[7..15]), FromLittle(v[16..24]), v[25] != 0, FromLittle(v[27..31])))
  }

  lemma Slices(h: Header)
    ensures var v := Encode(h);
            && v[0..4] == Big(h.packetLen, 4) && v[4..6] == Big(PROTO_SIZE, 2)
            && v[6] == 0x09 && v[7..15] == Little(h.offsetInBlock, 8)
            && v[15] == 0x11 && v[16..24] == Little(h.seqno, 8)
            && v[24] == 0x18 && v[25] == (if h.lastPacketInBlock then 1 else 0)
            && v[26] == 0x25 && v[27..31] == Little(h.dataLen, 4)
  {
    hide Little, Big;
    assert Encode(h) == Fields(h);
  }

  lemma Powers()
    ensures Pow256(2) == 0x1_0000 && Pow256(4) == 0x1_0000_0000 && Pow256(8) == 0x1_0000_0000_0000_0000
  {
    assert Pow256(1) == 256;
    assert Pow256(3) == 256 * Pow256(2);
    assert Pow256(5) == 256 * Pow256(4);
    assert Pow256(6) == 256 * Pow256(5);
    assert Pow256(7) == 256 * Pow256(6);
  }

  // A header read back is the header written, and refused exactly when the length in it
  // leaves no room for the length itself.
  lemma DecodeUndoesEncode(h: Header)
    requires h.InRange()
    ensures Decode(Encode(h)) == if 4 <= h.packetLen then Some(h) else None
  {
    hide Encode, Little, Big, FromLittle, FromBig;
    Slices(h);
    Powers();
    BigBack(h.packetLen, 4);
    BigBack(PROTO_SIZE, 2);
    LittleBack(h.offsetInBlock, 8);
    LittleBack(h.seqno, 8);
    LittleBack(h.dataLen, 4);
  }
}
