/**
 * The payload of a spectrogram packet: every mel coefficient (q15) as two
 * bytes, big endian, vector after vector. The firmware has two encoders for
 * this layout, an indexed one and a word-packing one that packs two
 * coefficients into a 32-bit word; both are proved to write the same bytes.
 */
module MelEncoding {
  import opened Bits

  const PACKET_HEADER_LENGTH: nat := 8

  /** The two bytes of a coefficient: `v >> 8` and `v & 0xFF`, each stored as uint8_t. */
  function ValueBytes(v: int16): (bs: seq<byte>)
    ensures |bs| == 2
  {
    [HighByte(v), LowByte(v)]
  }

  /** The bytes of one mel vector. */
  function RowBytes(row: seq<int16>): (bs: seq<byte>)
    ensures |bs| == 2 * |row|
  {
    if row == [] then [] else RowBytes(row[..|row| - 1]) + ValueBytes(row[|row| - 1])
  }

  /** The bytes of all mel vectors, in order. */
  function MelPayload(rows: seq<seq<int16>>): seq<byte>
  {
    if rows == [] then [] else MelPayload(rows[..|rows| - 1]) + RowBytes(rows[|rows| - 1])
  }

  predicate AllLength(rows: seq<seq<int16>>, len: nat)
  {
    forall i :: 0 <= i < |rows| ==> |rows[i]| == len
  }

  lemma {:induction false} MelPayloadLength(rows: seq<seq<int16>>, len: nat)
    requires AllLength(rows, len)
    ensures |MelPayload(rows)| == 2 * (|rows| * len)
  {
    if rows != [] {
      var n := |rows|;
      MelPayloadLength(rows[..n - 1], len);
      MulSucc(n - 1, len);
    }
  }

  lemma {:induction false} RowBytesIndex(row: seq<int16>, j: nat)
    requires j < |row|
    ensures RowBytes(row)[2 * j] == HighByte(row[j]) && RowBytes(row)[2 * j + 1] == LowByte(row[j])
  {
    if j < |row| - 1 {
      RowBytesIndex(row[..|row| - 1], j);
    }
  }

  /** Coefficient j of vector i sits at payload offsets 2 * (i * len + j) (high byte) and the next one (low byte). */
  lemma {:induction false} MelPayloadIndex(rows: seq<seq<int16>>, len: nat, i: nat, j: nat)
    requires AllLength(rows, len) && i < |rows| && j < len
    ensures 2 * (i * len + j) + 1 < |MelPayload(rows)|
    ensures MelPayload(rows)[2 * (i * len + j)] == HighByte(rows[i][j])
    ensures MelPayload(rows)[2 * (i * len + j) + 1] == LowByte(rows[i][j])
  {
    var n := |rows|;
    var front := rows[..n - 1];
    var p := MelPayload(front);
    var k := 2 * (i * len + j);
    assert MelPayload(rows) == p + RowBytes(rows[n - 1]);
    if i < n - 1 {
      MelPayloadIndex(front, len, i, j);
      assert front[i] == rows[i];
    } else {
      MelPayloadLength(front, len);
      RowBytesIndex(rows[i], j);
      assert k == |p| + 2 * j;
    }
  }

  // ---------------------------------------------------------------------
  // The two encoders, on the mel buffer and the packet buffer
  // ---------------------------------------------------------------------

  /** The rows of a 2-D q15 buffer. */
  ghost function Rows(a: array2<int16>): (rows: seq<seq<int16>>)
    reads a
    ensures |rows| == a.Length0 && AllLength(rows, a.Length1)
  {
    seq(a.Length0, i requires 0 <= i < a.Length0 reads a => seq(a.Length1, j requires 0 <= j < a.Length1 reads a => a[i, j]))
  }

  lemma RowsPrefix(a: array2<int16>, i: nat)
    requires i < a.Length0
    ensures Rows(a)[..i + 1] == Rows(a)[..i] + [Rows(a)[i]]
    ensures MelPayload(Rows(a)[..i + 1]) == MelPayload(Rows(a)[..i]) + RowBytes(Rows(a)[i])
  {
    assert Rows(a)[..i + 1][..i] == Rows(a)[..i];
  }

  lemma RowPrefix(row: seq<int16>, j: nat)
    requires j < |row|
    ensures RowBytes(row[..j + 1]) == RowBytes(row[..j]) + ValueBytes(row[j])
  {
    assert row[..j + 1][..j] == row[..j];
  }

  lemma RowPrefix2(row: seq<int16>, j: nat)
    requires j + 1 < |row|
    ensures RowBytes(row[..j + 2]) == RowBytes(row[..j]) + (ValueBytes(row[j]) + ValueBytes(row[j + 1]))
  {
    RowPrefix(row, j + 1);
    RowPrefix(row, j);
  }

  /** Row i of a 2-D buffer replaced by row, entry by entry (the other rows are untouched). */
  method SetRow(a: array2<int16>, i: nat, row: seq<int16>)
    modifies a
    requires i < a.Length0 && |row| == a.Length1
    ensures Rows(a) == old(Rows(a))[i := row]
  {
    for j := 0 to a.Length1
      invariant forall x, y :: 0 <= x < a.Length0 && 0 <= y < a.Length1 ==>
                  a[x, y] == if x == i && y < j then row[y] else old(a[x, y])
    {
      a[i, j] := row[j];
    }
    forall x | 0 <= x < a.Length0
      ensures Rows(a)[x] == old(Rows(a))[i := row][x]
    {
    }
  }

  /**
   * The buffer p with bs written from offset at on: the bytes before at and
   * from at + |bs| on are those of p.
   */
  function Written(p: seq<byte>, at: nat, bs: seq<byte>): (q: seq<byte>)
    requires at + |bs| <= |p|
    ensures |q| == |p|
    ensures q[..at] == p[..at] && q[at .. at + |bs|] == bs && q[at + |bs|..] == p[at + |bs|..]
  {
    p[..at] + bs + p[at + |bs|..]
  }

  /** Writing a and then b right after it is writing a + b. */
  lemma WrittenTwice(p: seq<byte>, at: nat, a: seq<byte>, b: seq<byte>)
    requires at + |a| + |b| <= |p|
    ensures Written(Written(p, at, a), at + |a|, b) == Written(p, at, a + b)
  {
    var q := Written(p, at, a);
    assert q[..at + |a|] == p[..at] + a;
    assert q[at + |a| + |b|..] == p[at + |a| + |b|..];
  }

  /** The two byte stores of one coefficient at offset at. */
  method StoreValue(packet: array<byte>, at: nat, v: int16)
    modifies packet
    requires at + 2 <= packet.Length
    ensures packet[..] == Written(old(packet[..]), at, ValueBytes(v))
  {
    packet[at] := HighByte(v);
    packet[at + 1] := LowByte(v);
  }

  /** Level 0: the indexed double loop. */
  method EncodeIndexed(packet: array<byte>, mel: array2<int16>)
    modifies packet
    requires PACKET_HEADER_LENGTH + 2 * (mel.Length0 * mel.Length1) <= packet.Length
    ensures |MelPayload(Rows(mel))| == 2 * (mel.Length0 * mel.Length1)
         && packet[..] == Written(old(packet[..]), PACKET_HEADER_LENGTH, MelPayload(Rows(mel)))
  {
    var n, len := mel.Length0, mel.Length1;
    var h := PACKET_HEADER_LENGTH;
    ghost var rows := Rows(mel);
    ghost var start := packet[..];
    for i := 0 to n
      invariant i * len <= n * len
      invariant |MelPayload(rows[..i])| == 2 * (i * len)
      invariant packet[..] == Written(start, h, MelPayload(rows[..i]))
    {
      RowsPrefix(mel, i);
      MulMonotone(i + 1, n, len);
      MulSucc(i, len);
      ghost var done := MelPayload(rows[..i]);
      EncodeRowIndexed(packet, mel, i, rows[i]);
      WrittenTwice(start, h, done, RowBytes(rows[i]));
    }
    assert rows[..n] == rows;
    MelPayloadLength(rows, len);
  }

  /** The inner loop of level 0 for vector i: coefficient j goes to offsets (i * len + j) * 2 and the next one. */
  method EncodeRowIndexed(packet: array<byte>, mel: array2<int16>, i: nat, ghost row: seq<int16>)
    modifies packet
    requires i < mel.Length0
    requires |row| == mel.Length1 && forall j :: 0 <= j < |row| ==> row[j] == mel[i, j]
    requires PACKET_HEADER_LENGTH + 2 * (i * mel.Length1 + mel.Length1) <= packet.Length
    ensures packet[..] == Written(old(packet[..]), PACKET_HEADER_LENGTH + 2 * (i * mel.Length1), RowBytes(row))
  {
    var len := mel.Length1;
    var h := PACKET_HEADER_LENGTH;
    var rowStart := i * len;
    ghost var base := h + 2 * rowStart;
    ghost var start := packet[..];
    for j := 0 to len
      invariant packet[..] == Written(start, base, RowBytes(row[..j]))
    {
      var v := mel[i, j];
      ghost var done := RowBytes(row[..j]);
      StoreValue(packet, h + (rowStart + j) * 2, v);
      WrittenTwice(start, base, done, ValueBytes(v));
      RowPrefix(row, j);
    }
    assert row[..len] == row;
  }

  /**
   * The 16-bit two's-complement pattern of v (`v & 0xFFFF`), assembled from
   * its high and low bytes; U16Value shows it is v modulo 2^16.
   */
  function U16(v: int16): bv16
  {
    ((HighByte(v) as bv16) << 8) | (LowByte(v) as bv16)
  }

  lemma BytesValue(h: byte, l: byte)
    ensures (((h as bv16) << 8) | (l as bv16)) as int == (h as int) * 256 + (l as int)
  {
  }

  lemma U16Value(v: int16)
    ensures U16(v) as int == v % 65536
  {
    BytesValue(HighByte(v), LowByte(v));
    SplitLow16(v);
  }

  /** The low 16 bits of v are its second-lowest byte times 256 plus its lowest byte. */
  lemma SplitLow16(v: int)
    ensures v % 65536 == ((v / 256) % 256) * 256 + v % 256
  {
    var q, r := v / 256, v % 256;
    var q1, q0 := q / 256, q % 256;
    assert v == 256 * q + r;
    assert q == 256 * q1 + q0;
    assert v == q1 * 65536 + (q0 * 256 + r);
    ModUnique(v, q1, 65536, q0 * 256 + r);
  }

  /** `(mel[j] << 16) | (mel[j + 1] & 0xFFFF)` as a uint32_t. */
  function Pair(a: int16, b: int16): bv32
  {
    ((U16(a) as bv32) << 16) | (U16(b) as bv32)
  }

  lemma PatternBytes(h: byte, l: byte, h2: byte, l2: byte)
    ensures var p := ((((h as bv16) << 8) | (l as bv16)) as bv32 << 16) | ((((h2 as bv16) << 8) | (l2 as bv16)) as bv32);
      && ((p >> 24) & 0xFF) as byte == h && ((p >> 16) & 0xFF) as byte == l
      && ((p >> 8) & 0xFF) as byte == h2 && (p & 0xFF) as byte == l2
  {
  }

  /** The four bytes taken from the packed word are the two coefficients, big endian. */
  lemma PairBytes(a: int16, b: int16)
    ensures [((Pair(a, b) >> 24) & 0xFF) as byte, ((Pair(a, b) >> 16) & 0xFF) as byte,
             ((Pair(a, b) >> 8) & 0xFF) as byte, (Pair(a, b) & 0xFF) as byte]
         == ValueBytes(a) + ValueBytes(b)
  {
    PatternBytes(HighByte(a), LowByte(a), HighByte(b), LowByte(b));
  }

  /** Level 1: the word-packing encoder, two coefficients per step and a tail for an odd vector length. */
  method EncodePaired(packet: array<byte>, mel: array2<int16>)
    modifies packet
    requires mel.Length1 >= 1
    requires PACKET_HEADER_LENGTH + 2 * (mel.Length0 * mel.Length1) <= packet.Length
    ensures |MelPayload(Rows(mel))| == 2 * (mel.Length0 * mel.Length1)
         && packet[..] == Written(old(packet[..]), PACKET_HEADER_LENGTH, MelPayload(Rows(mel)))
  {
    var n, len := mel.Length0, mel.Length1;
    var h := PACKET_HEADER_LENGTH;
    ghost var rows := Rows(mel);
    ghost var start := packet[..];
    var ptr := h;
    for i := 0 to n
      invariant i * len <= n * len
      invariant ptr == h + 2 * (i * len) == h + |MelPayload(rows[..i])|
      invariant packet[..] == Written(start, h, MelPayload(rows[..i]))
    {
      RowsPrefix(mel, i);
      MulMonotone(i + 1, n, len);
      MulSucc(i, len);
      ghost var done := MelPayload(rows[..i]);
      ptr := EncodeRowPaired(packet, mel, i, ptr, rows[i]);
      WrittenTwice(start, h, done, RowBytes(rows[i]));
    }
    assert rows[..n] == rows;
    MelPayloadLength(rows, len);
  }

  /** One vector of the word-packing encoder, from ptr on; returns the advanced write position. */
  method EncodeRowPaired(packet: array<byte>, mel: array2<int16>, i: nat, ptr0: nat, ghost row: seq<int16>)
    returns (ptr: nat)
    modifies packet
    requires i < mel.Length0 && mel.Length1 >= 1
    requires |row| == mel.Length1 && forall j :: 0 <= j < |row| ==> row[j] == mel[i, j]
    requires ptr0 + 2 * mel.Length1 <= packet.Length
    ensures ptr == ptr0 + 2 * mel.Length1
    ensures packet[..] == Written(old(packet[..]), ptr0, RowBytes(row))
  {
    var len := mel.Length1;
    ghost var start := packet[..];
    var j;
    ptr, j := EncodePairs(packet, mel, i, ptr0, row);
    if len % 2 == 1 {
      var v := mel[i, len - 1];
      ghost var done := RowBytes(row[..j]);
      StoreValue(packet, ptr, v);
      WrittenTwice(start, ptr0, done, ValueBytes(v));
      RowPrefix(row, j);
      ptr := ptr + 2;
      j := j + 1;
    }
    assert row[..j] == row;
  }

  /** The paired steps of one vector: every pair of coefficients below the last odd one. */
  method EncodePairs(packet: array<byte>, mel: array2<int16>, i: nat, ptr0: nat, ghost row: seq<int16>)
    returns (ptr: nat, j: nat)
    modifies packet
    requires i < mel.Length0 && mel.Length1 >= 1
    requires |row| == mel.Length1 && forall j :: 0 <= j < |row| ==> row[j] == mel[i, j]
    requires ptr0 + 2 * mel.Length1 <= packet.Length
    ensures j == mel.Length1 - mel.Length1 % 2 && ptr == ptr0 + 2 * j
    ensures packet[..] == Written(old(packet[..]), ptr0, RowBytes(row[..j]))
  {
    var len := mel.Length1;
    ghost var start := packet[..];
    ptr := ptr0;
    j := 0;
    ghost var pairs := 0;
    while j < len - 1
      invariant j == 2 * pairs <= len
      invariant ptr == ptr0 + 2 * j
      invariant packet[..] == Written(start, ptr0, RowBytes(row[..j]))
    {
      ghost var done := RowBytes(row[..j]);
      EncodePairAt(packet, mel, i, j, ptr, row);
      WrittenTwice(start, ptr0, done, ValueBytes(row[j]) + ValueBytes(row[j + 1]));
      RowPrefix2(row, j);
      ptr := ptr + 4;
      j := j + 2;
      pairs := pairs + 1;
    }
    if j == len {
      ModUnique(len, pairs, 2, 0);
    } else {
      ModUnique(len, pairs, 2, 1);
    }
  }

  /** One step of the word-packing encoder: coefficients j and j + 1 of vector i packed into a word and stored at ptr. */
  method EncodePairAt(packet: array<byte>, mel: array2<int16>, i: nat, j: nat, ptr: nat, ghost row: seq<int16>)
    modifies packet
    requires i < mel.Length0 && j + 1 < mel.Length1
    requires j + 1 < |row| && row[j] == mel[i, j] && row[j + 1] == mel[i, j + 1]
    requires ptr + 4 <= packet.Length
    ensures packet[..] == Written(old(packet[..]), ptr, ValueBytes(row[j]) + ValueBytes(row[j + 1]))
  {
    var a, b := mel[i, j], mel[i, j + 1];
    var pair := Pair(a, b);
    StorePair(packet, ptr, pair);
    PairBytes(a, b);
  }

  /** The four byte stores of a packed word, most significant byte first. */
  method StorePair(packet: array<byte>, at: nat, pair: bv32)
    modifies packet
    requires at + 4 <= packet.Length
    ensures packet[..] == Written(old(packet[..]), at,
      [((pair >> 24) & 0xFF) as byte, ((pair >> 16) & 0xFF) as byte, ((pair >> 8) & 0xFF) as byte, (pair & 0xFF) as byte])
  {
    packet[at] := ((pair >> 24) & 0xFF) as byte;
    packet[at + 1] := ((pair >> 16) & 0xFF) as byte;
    packet[at + 2] := ((pair >> 8) & 0xFF) as byte;
    packet[at + 3] := (pair & 0xFF) as byte;
  }
}
