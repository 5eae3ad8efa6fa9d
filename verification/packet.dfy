/**
 * Packet framing on the sensor node: an 8-byte big-endian header in front of
 * the payload and a 16-byte CBC-MAC tag after it. AES-128 under the fixed key
 * is a parameter `aes`, any function from blocks to blocks.
 */
module Packet {
  import opened Bits

  const PACKET_HEADER_LENGTH: nat := 8
  const PACKET_TAG_LENGTH: nat := 16
  const BLOCK_SIZE: nat := 16

  type Block = s: seq<byte> | |s| == 16 witness ZeroBlock()

  function ZeroBlock(): seq<byte> { seq(16, _ => 0) }

  function XorBlock(a: Block, b: Block): (r: Block)
    ensures forall j :: 0 <= j < 16 ==> r[j] == a[j] ^ b[j]
  {
    seq(16, j requires 0 <= j < 16 => a[j] ^ b[j])
  }

  /** The number of 16-byte blocks the MAC loop processes: ceil(len / 16). */
  function NumBlocks(len: nat): nat
  {
    (len + BLOCK_SIZE - 1) / BLOCK_SIZE
  }

  /** Block i of msg with the bytes beyond the message taken as 0 (the bounds check of the loop). */
  function MsgBlock(msg: seq<byte>, i: nat): (b: Block)
    ensures forall j :: 0 <= j < 16 ==> b[j] == (if 16 * i + j < |msg| then msg[16 * i + j] else 0)
  {
    seq(16, j requires 0 <= j < 16 => if 16 * i + j < |msg| then msg[16 * i + j] else 0)
  }

  /** The state after the first n blocks: start at zero, XOR a block in, encrypt. */
  function MacState(msg: seq<byte>, aes: Block -> Block, n: nat): Block
  {
    if n == 0 then ZeroBlock() else aes(XorBlock(MacState(msg, aes, n - 1), MsgBlock(msg, n - 1)))
  }

  /** The tag tag_cbc_mac writes. */
  function CbcMac(msg: seq<byte>, aes: Block -> Block): Block
  {
    MacState(msg, aes, NumBlocks(|msg|))
  }

  // ---------------------------------------------------------------------
  // Reference: CBC-MAC over the zero-padded message (ISO/IEC 9797-1,
  // MAC algorithm 1, padding method 1, no output transformation)
  // ---------------------------------------------------------------------

  /** The message followed by as few zero bytes as make its length a multiple of 16. */
  function ZeroPad(msg: seq<byte>): (p: seq<byte>)
    ensures |p| % 16 == 0 && |msg| <= |p| < |msg| + 16
    ensures p[..|msg|] == msg
  {
    var k := (16 - |msg| % 16) % 16;
    msg + seq(k, _ => 0)
  }

  /** The 16-byte blocks of a padded message. */
  function Blocks(p: seq<byte>): (bs: seq<Block>)
    requires |p| % 16 == 0
    ensures |bs| == |p| / 16
    ensures forall i :: 0 <= i < |bs| ==> bs[i] == p[16 * i .. 16 * i + 16]
  {
    seq(|p| / 16, i requires 0 <= i < |p| / 16 => p[16 * i .. 16 * i + 16])
  }

  /** CBC chaining from an initial value: each block is XORed into the state, which is then encrypted. */
  function Chain(iv: Block, bs: seq<Block>, aes: Block -> Block): Block
    decreases |bs|
  {
    if bs == [] then iv else Chain(aes(XorBlock(iv, bs[0])), bs[1..], aes)
  }

  lemma {:induction false} ChainSnoc(iv: Block, bs: seq<Block>, b: Block, aes: Block -> Block)
    ensures Chain(iv, bs + [b], aes) == aes(XorBlock(Chain(iv, bs, aes), b))
    decreases |bs|
  {
    if bs != [] {
      assert (bs + [b])[1..] == bs[1..] + [b];
      ChainSnoc(aes(XorBlock(iv, bs[0])), bs[1..], b, aes);
    }
  }

  lemma PaddedBlock(msg: seq<byte>, i: nat)
    requires i < |ZeroPad(msg)| / 16
    ensures Blocks(ZeroPad(msg))[i] == MsgBlock(msg, i)
  {
    var p := ZeroPad(msg);
    forall j | 0 <= j < 16
      ensures p[16 * i + j] == MsgBlock(msg, i)[j]
    {
      if 16 * i + j < |msg| {
        assert p[16 * i + j] == p[..|msg|][16 * i + j];
      }
    }
  }

  lemma {:induction false} MacStateIsChain(msg: seq<byte>, aes: Block -> Block, n: nat)
    requires n <= |ZeroPad(msg)| / 16
    ensures MacState(msg, aes, n) == Chain(ZeroBlock(), Blocks(ZeroPad(msg))[..n], aes)
  {
    if n > 0 {
      var bs := Blocks(ZeroPad(msg));
      MacStateIsChain(msg, aes, n - 1);
      assert bs[..n] == bs[..n - 1] + [bs[n - 1]];
      ChainSnoc(ZeroBlock(), bs[..n - 1], bs[n - 1], aes);
      PaddedBlock(msg, n - 1);
    }
  }

  /**
   * The loop of tag_cbc_mac is CBC-MAC with a zero IV over the zero-padded
   * message; the empty message processes no block and yields the zero block.
   */
  lemma CbcMacIsReference(msg: seq<byte>, aes: Block -> Block)
    ensures CbcMac(msg, aes) == Chain(ZeroBlock(), Blocks(ZeroPad(msg)), aes)
    ensures msg == [] ==> CbcMac(msg, aes) == ZeroBlock()
  {
    assert NumBlocks(|msg|) == |ZeroPad(msg)| / 16;
    MacStateIsChain(msg, aes, NumBlocks(|msg|));
    assert Blocks(ZeroPad(msg))[..NumBlocks(|msg|)] == Blocks(ZeroPad(msg));
  }

  /** The tag depends only on the message bytes (and the cipher), not on what lies around them. */
  lemma {:induction false} MacStateExtensional(msg: seq<byte>, msg': seq<byte>, aes: Block -> Block, n: nat)
    requires forall i :: 0 <= i < n ==> MsgBlock(msg, i) == MsgBlock(msg', i)
    ensures MacState(msg, aes, n) == MacState(msg', aes, n)
  {
    if n > 0 {
      MacStateExtensional(msg, msg', aes, n - 1);
    }
  }

  // ---------------------------------------------------------------------
  // tag_cbc_mac on the packet buffer
  // ---------------------------------------------------------------------

  /** The inner loop: XOR the in-range bytes of block i of buf[..msgLen] into the state. */
  method XorMsgBlock(state: array<byte>, buf: array<byte>, i: nat, msgLen: nat)
    modifies state
    requires state.Length == 16 && state != buf && msgLen <= buf.Length
    ensures state[..] == XorBlock(old(state[..]), MsgBlock(buf[..msgLen], i))
  {
    ghost var s0 := state[..];
    for j := 0 to 16
      invariant forall k :: 0 <= k < j ==> state[k] == s0[k] ^ MsgBlock(buf[..msgLen], i)[k]
      invariant forall k :: j <= k < 16 ==> state[k] == s0[k]
    {
      var msgIndex := i * 16 + j;
      if msgIndex < msgLen {
        state[j] := state[j] ^ buf[msgIndex];
      }
    }
  }

  /** AES128_encrypt(state, key): the state is replaced by its encryption. */
  method Encrypt(state: array<byte>, aes: Block -> Block)
    modifies state
    requires state.Length == 16
    ensures state[..] == aes(old(state[..]))
  {
    var out := aes(state[..]);
    forall j | 0 <= j < 16 {
      state[j] := out[j];
    }
  }

  /**
   * tag_cbc_mac(buf + tagAt, buf, msgLen): the tag of the first msgLen bytes is
   * written to the 16 bytes at tagAt, and nothing else changes.
   */
  method TagCbcMac(buf: array<byte>, tagAt: nat, msgLen: nat, aes: Block -> Block)
    modifies buf
    requires msgLen <= tagAt && tagAt + PACKET_TAG_LENGTH <= buf.Length
    ensures buf[tagAt .. tagAt + 16] == CbcMac(old(buf[..msgLen]), aes)
    ensures buf[..tagAt] == old(buf[..tagAt]) && buf[tagAt + 16..] == old(buf[tagAt + 16..])
  {
    var state := new byte[16](_ => 0);
    ghost var msg := buf[..msgLen];
    for i := 0 to (msgLen + 15) / 16
      invariant buf[..] == old(buf[..])
      invariant state[..] == MacState(msg, aes, i)
    {
      XorMsgBlock(state, buf, i, msgLen);
      Encrypt(state, aes);
    }
    assert state[..] == CbcMac(msg, aes);
    ghost var before := buf[..];
    for j := 0 to 16
      invariant state[..] == CbcMac(msg, aes)
      invariant forall k :: 0 <= k < j ==> buf[tagAt + k] == state[k]
      invariant forall k :: 0 <= k < buf.Length && !(tagAt <= k < tagAt + j) ==> buf[k] == before[k]
    {
      buf[tagAt + j] := state[j];
    }
    assert buf[tagAt .. tagAt + 16] == state[..];
  }

  // ---------------------------------------------------------------------
  // make_packet
  // ---------------------------------------------------------------------

  /** reserved 0, emitter id, payload length (low 16 bits, big endian), serial (big endian). */
  function Header(payloadLen: nat, senderId: byte, serial: bv32): (h: seq<byte>)
    ensures |h| == PACKET_HEADER_LENGTH
  {
    [0, senderId,
     ToByte((payloadLen / 256) % 256), ToByte(payloadLen % 256),
     (serial >> 24) as byte, ((serial >> 16) & 0xFF) as byte, ((serial >> 8) & 0xFF) as byte, (serial & 0xFF) as byte]
  }

  datatype HeaderFields = HeaderFields(senderId: byte, payloadLen: nat, serial: bv32)

  /** How a receiver reads the header back. */
  function ParseHeader(h: seq<byte>): (f: HeaderFields)
    requires |h| == PACKET_HEADER_LENGTH
    ensures f.payloadLen < 65536
  {
    HeaderFields(h[1], (h[2] as nat) * 256 + h[3] as nat,
                 (h[4] as bv32 << 24) | (h[5] as bv32 << 16) | (h[6] as bv32 << 8) | h[7] as bv32)
  }

  lemma SerialBytes(serial: bv32)
    ensures ((serial >> 24) as byte as bv32 << 24) | (((serial >> 16) & 0xFF) as byte as bv32 << 16)
          | (((serial >> 8) & 0xFF) as byte as bv32 << 8) | (serial & 0xFF) as byte as bv32 == serial
  {
  }

  /** The header carries the emitter id, the serial, and the payload length modulo 2^16. */
  lemma HeaderRoundTrip(payloadLen: nat, senderId: byte, serial: bv32)
    ensures Header(payloadLen, senderId, serial)[0] == 0
    ensures ParseHeader(Header(payloadLen, senderId, serial)) == HeaderFields(senderId, payloadLen % 65536, serial)
  {
    LengthBytes(payloadLen);
    SerialBytes(serial);
  }

  lemma LengthBytes(n: nat)
    ensures (ToByte((n / 256) % 256) as int) * 256 + (ToByte(n % 256) as int) == n % 65536
  {
    var q := n / 65536;
    assert n == q * 65536 + ((n / 256) % 256) * 256 + n % 256 by {
      assert n == (n / 256) * 256 + n % 256;
      assert n / 256 == (n / 256 / 256) * 256 + (n / 256) % 256;
      assert n / 256 / 256 == q;
    }
  }

  /** Writes the 8 header bytes (after clearing them) and leaves the rest of the buffer alone. */
  method WriteHeader(packet: array<byte>, payloadLen: nat, senderId: byte, serial: bv32)
    modifies packet
    requires PACKET_HEADER_LENGTH <= packet.Length
    ensures packet[..PACKET_HEADER_LENGTH] == Header(payloadLen, senderId, serial)
    ensures packet[PACKET_HEADER_LENGTH..] == old(packet[PACKET_HEADER_LENGTH..])
  {
    forall k | 0 <= k < PACKET_HEADER_LENGTH {
      packet[k] := 0;
    }
    packet[0] := 0x00;
    packet[1] := senderId;
    packet[2] := ToByte((payloadLen / 256) % 256);
    packet[3] := ToByte(payloadLen % 256);
    packet[4] := (serial >> 24) as byte;
    packet[5] := ((serial >> 16) & 0xFF) as byte;
    packet[6] := ((serial >> 8) & 0xFF) as byte;
    packet[7] := (serial & 0xFF) as byte;
  }

  /**
   * make_packet: the payload is already in place at offset 8. The header is
   * written in front of it and the tag over header and payload right after it;
   * the payload and everything beyond the tag are untouched.
   */
  method MakePacket(packet: array<byte>, payloadLen: nat, senderId: byte, serial: bv32, aes: Block -> Block)
    returns (packetLen: nat)
    modifies packet
    requires payloadLen + PACKET_HEADER_LENGTH + PACKET_TAG_LENGTH <= packet.Length
    ensures packetLen == payloadLen + PACKET_HEADER_LENGTH + PACKET_TAG_LENGTH
    ensures packet[..PACKET_HEADER_LENGTH] == Header(payloadLen, senderId, serial)
    ensures packet[PACKET_HEADER_LENGTH .. PACKET_HEADER_LENGTH + payloadLen]
         == old(packet[PACKET_HEADER_LENGTH .. PACKET_HEADER_LENGTH + payloadLen])
    ensures packet[PACKET_HEADER_LENGTH + payloadLen .. packetLen]
         == CbcMac(packet[..PACKET_HEADER_LENGTH + payloadLen], aes)
    ensures packet[packetLen..] == old(packet[packetLen..])
  {
    packetLen := payloadLen + PACKET_HEADER_LENGTH + PACKET_TAG_LENGTH;
    var tagAt := payloadLen + PACKET_HEADER_LENGTH;
    WriteHeader(packet, payloadLen, senderId, serial);
    ghost var framed := packet[..];
    forall k | tagAt <= k < tagAt + PACKET_TAG_LENGTH {
      packet[k] := 0;
    }
    assert packet[..tagAt] == framed[..tagAt];
    TagCbcMac(packet, tagAt, tagAt, aes);
    assert packet[..tagAt] == framed[..tagAt];
    assert packet[PACKET_HEADER_LENGTH .. tagAt] == framed[PACKET_HEADER_LENGTH .. tagAt];
  }

  /** A whole frame as make_packet leaves it: header, payload, and the tag over both. */
  function Framed(payload: seq<byte>, senderId: byte, serial: bv32, aes: Block -> Block): (p: seq<byte>)
    ensures |p| == PACKET_HEADER_LENGTH + |payload| + PACKET_TAG_LENGTH
  {
    var m := Header(|payload|, senderId, serial) + payload;
    m + CbcMac(m, aes)
  }

  /** A buffer in the state make_packet leaves is the frame of the payload it carries. */
  lemma FramedParts(p: seq<byte>, payloadLen: nat, senderId: byte, serial: bv32, aes: Block -> Block)
    requires |p| == PACKET_HEADER_LENGTH + payloadLen + PACKET_TAG_LENGTH
    requires p[..PACKET_HEADER_LENGTH] == Header(payloadLen, senderId, serial)
    requires p[PACKET_HEADER_LENGTH + payloadLen..] == CbcMac(p[..PACKET_HEADER_LENGTH + payloadLen], aes)
    ensures p == Framed(p[PACKET_HEADER_LENGTH .. PACKET_HEADER_LENGTH + payloadLen], senderId, serial, aes)
  {
    var tagAt := PACKET_HEADER_LENGTH + payloadLen;
    var m := p[..tagAt];
    assert m == p[..PACKET_HEADER_LENGTH] + p[PACKET_HEADER_LENGTH .. tagAt];
    assert p == m + p[tagAt..];
  }

  /**
   * A receiver recovers everything from a frame: the header fields (length
   * modulo 2^16), the payload, and a tag that checks against header and payload.
   */
  lemma FramedRoundTrip(payload: seq<byte>, senderId: byte, serial: bv32, aes: Block -> Block)
    ensures var p := Framed(payload, senderId, serial, aes);
            var n := PACKET_HEADER_LENGTH + |payload|;
            && ParseHeader(p[..PACKET_HEADER_LENGTH]) == HeaderFields(senderId, |payload| % 65536, serial)
            && p[PACKET_HEADER_LENGTH .. n] == payload
            && p[n..] == CbcMac(p[..n], aes)
  {
    var h := Header(|payload|, senderId, serial);
    var m := h + payload;
    var p := Framed(payload, senderId, serial, aes);
    assert p == m + CbcMac(m, aes);
    assert p[..PACKET_HEADER_LENGTH] == h;
    assert p[..|m|] == m;
    HeaderRoundTrip(|payload|, senderId, serial);
  }
}
