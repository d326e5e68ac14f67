/**
 * rjencode.c and bit_reverse of util/misc.c: bytes with their bits reversed and complemented, and the
 * 23-byte block of a frame's private header that is sent in that form.
 */
module Scramble {
  import opened Crc16
  import opened Dhcp
  import opened Gf2
  import Octets
  import Rjv3Prop

  /** half_reverse_table */
  function HalfReverse(nibble: bv8): bv8 {
    match nibble
    case 0 => 0x0 case 1 => 0x8 case 2 => 0x4 case 3 => 0xc case 4 => 0x2 case 5 => 0xa case 6 => 0x6 case 7 => 0xe
    case 8 => 0x1 case 9 => 0x9 case 10 => 0x5 case 11 => 0xd case 12 => 0x3 case 13 => 0xb case 14 => 0x7 case _ => 0xf
  }

  /** bit_reverse */
  function BitReverse(b: bv8): bv8 {
    (HalfReverse(b & 0xf) << 4) | HalfReverse((b & 0xf0) >> 4)
  }

  /** The assignment in rj_encode's loop: 32-bit arithmetic, stored in a byte. */
  function EncodeByte(b: bv8): bv8 {
    var w := b as bv32;
    var r := !(((w & 0x10) >> 1) | ((w & 0x20) >> 3) | ((w & 0x40) >> 5) | (w >> 7)
               | ((w & 8) << 1) | ((w & 4) << 3) | ((w & 2) << 5) | ((w & 1) << 7));
    (r & 0xFF) as bv8
  }

  /** The assignment in rj_decode's loop; only one of the complements is cut to a byte before its shift. */
  function DecodeByte(b: bv8): bv8 {
    var w := !(b as bv32);
    var r := ((w & 0x10) >> 1) | ((w & 0x20) >> 3) | ((w & 0x40) >> 5) | (((!b) as bv32) >> 7)
             | (2 * (w & 8)) | (8 * (w & 4)) | ((w & 1) << 7) | (32 * (w & 2));
    (r & 0xFF) as bv8
  }

  /** Bit k of the reversed byte is bit 7 - k of the byte. */
  lemma ReversesBits(b: bv8)
    ensures var r := BitReverse(b);
            && (r & 0x80 != 0) == (b & 1 != 0) && (r & 0x40 != 0) == (b & 2 != 0)
            && (r & 0x20 != 0) == (b & 4 != 0) && (r & 0x10 != 0) == (b & 8 != 0)
            && (r & 8 != 0) == (b & 0x10 != 0) && (r & 4 != 0) == (b & 0x20 != 0)
            && (r & 2 != 0) == (b & 0x40 != 0) && (r & 1 != 0) == (b & 0x80 != 0)
  {
  }

  lemma BothReverseAndComplement(b: bv8)
    ensures EncodeByte(b) == !BitReverse(b) && DecodeByte(b) == BitReverse(!b)
  {
  }

  /** Encoding and decoding are the same map, and it undoes itself. */
  lemma ByteRoundTrip(b: bv8)
    ensures DecodeByte(EncodeByte(b)) == b && EncodeByte(DecodeByte(b)) == b && EncodeByte(b) == DecodeByte(b)
  {
  }

  function Encoded(m: seq<bv8>): (r: seq<bv8>)
    ensures |r| == |m|
  {
    seq(|m|, i requires 0 <= i < |m| => EncodeByte(m[i]))
  }

  function Decoded(m: seq<bv8>): (r: seq<bv8>)
    ensures |r| == |m|
  {
    seq(|m|, i requires 0 <= i < |m| => DecodeByte(m[i]))
  }

  /** rj_encode and rj_decode are mutual inverses on every buffer. */
  lemma BufferRoundTrip(m: seq<bv8>)
    ensures Decoded(Encoded(m)) == m && Encoded(Decoded(m)) == m
  {
    forall i | 0 <= i < |m|
      ensures Decoded(Encoded(m))[i] == m[i] && Encoded(Decoded(m))[i] == m[i]
    {
      ByteRoundTrip(m[i]);
    }
  }

  /** rj_encode: a length that is not positive touches nothing. */
  method Encode(buf: array<bv8>, len: int)
    requires len <= buf.Length
    modifies buf
    ensures 0 < len ==> buf[..] == Encoded(old(buf[..len])) + old(buf[len..])
    ensures len <= 0 ==> buf[..] == old(buf[..])
  {
    if len > 0 {
      for i := 0 to len
        invariant forall k :: 0 <= k < i ==> buf[k] == EncodeByte(old(buf[k]))
        invariant forall k :: i <= k < buf.Length ==> buf[k] == old(buf[k])
      {
        buf[i] := EncodeByte(buf[i]);
      }
    }
  }

  /** rj_decode */
  method Decode(buf: array<bv8>, len: int)
    requires len <= buf.Length
    modifies buf
    ensures 0 < len ==> buf[..] == Decoded(old(buf[..len])) + old(buf[len..])
    ensures len <= 0 ==> buf[..] == old(buf[..])
  {
    if len > 0 {
      for i := 0 to len
        invariant forall k :: 0 <= k < i ==> buf[k] == DecodeByte(old(buf[k]))
        invariant forall k :: i <= k < buf.Length ==> buf[k] == old(buf[k])
      {
        buf[i] := DecodeByte(buf[i]);
      }
    }
  }

  // ---- The private header ----

  /** The magic of rjv3's properties, as the private header repeats it. */
  const MAGIC: seq<bv8> := [Rjv3Prop.MAGIC[0] as bv8, Rjv3Prop.MAGIC[1] as bv8,
                            Rjv3Prop.MAGIC[2] as bv8, Rjv3Prop.MAGIC[3] as bv8]

  function BlockBody(dhcpType: DhcpType, succCount: int, lease: seq<bv8>): (r: seq<bv8>)
    requires |lease| == 16
    ensures |r| == 21
  {
    MAGIC + [if dhcpType != DhcpNone then 1 else 0] + BlockLease(dhcpType, succCount, lease)
  }

  function BlockLease(dhcpType: DhcpType, succCount: int, lease: seq<bv8>): (r: seq<bv8>)
    requires |lease| == 16
    ensures |r| == 16
  {
    if ShouldFill(dhcpType, succCount) then lease else seq(16, _ => 0)
  }

  /** Byte by byte: the magic, whether DHCP is used at all, and the lease or sixteen zeros, by mode. */
  lemma BlockLayout(dhcpType: DhcpType, succCount: int, lease: seq<bv8>)
    requires |lease| == 16
    ensures var b := BlockBody(dhcpType, succCount, lease);
            && b[0] == 0x00 && b[1] == 0x00 && b[2] == 0x13 && b[3] == 0x11
            && b[4] == (match dhcpType case DhcpNone => 0 case _ => 1)
            && b[5..] == (match dhcpType
                          case DhcpNone => seq(16, _ => 0)
                          case AfterAuth => seq(16, _ => 0)
                          case BeforeAuth => lease
                          case DoubleAuth => if succCount < 2 then seq(16, _ => 0) else lease)
  {
    MagicIs();
    assert BlockBody(dhcpType, succCount, lease)[5..] == BlockLease(dhcpType, succCount, lease);
  }

  /**
   * rjv3_append_priv_header up to the first append.  `lease` is what the operating system's interface list
   * puts into the zeroed lease.  The receiver's decoding gives the block back, and its checksum over all 23
   * bytes is zero.
   */
  method PrivateBlock(dhcpType: DhcpType, succCount: int, lease: seq<bv8>) returns (block: array<bv8>)
    requires |lease| == 16
    ensures fresh(block) && block.Length == 23
    ensures Decoded(block[..])[..21] == BlockBody(dhcpType, succCount, lease)
    ensures WordBits(Crc(Decoded(block[..]))) == Zeros(16)
  {
    block := FillBlock(dhcpType, succCount, lease);
    ghost var body := block[..21];
    var crc := Compute(block, 21);
    block[21], block[22] := (crc >> 8) as bv8, (crc & 0xFF) as bv8;
    ghost var plain := body + [(crc >> 8) as bv8, (crc & 0xFF) as bv8];
    assert block[..] == plain;
    EncodeBlock(block, plain);
    CheckBits(crc);
    CheckedMeansZero(body, (crc >> 8) as bv8, (crc & 0xFF) as bv8);
  }

  /** Everything but the checksum. */
  method FillBlock(dhcpType: DhcpType, succCount: int, lease: seq<bv8>) returns (block: array<bv8>)
    requires |lease| == 16
    ensures fresh(block) && block.Length == 23 && block[..21] == BlockBody(dhcpType, succCount, lease)
  {
    MagicIs();
    block := new bv8[23](_ => 0);
    block[0], block[1], block[2], block[3] := 0x00, 0x00, 0x13, 0x11;
    block[4] := if dhcpType != DhcpNone then 1 else 0;
    if ShouldFill(dhcpType, succCount) {
      forall i | 0 <= i < 16 {
        block[5 + i] := lease[i];
      }
    }
    assert block[..4] == MAGIC && block[5..21] == BlockLease(dhcpType, succCount, lease);
    ThreeParts(block[..21], MAGIC, block[4], BlockLease(dhcpType, succCount, lease));
  }

  lemma MagicIs()
    ensures MAGIC == [0x00, 0x00, 0x13, 0x11]
  {
  }

  lemma ThreeParts(s: seq<bv8>, a: seq<bv8>, b: bv8, c: seq<bv8>)
    requires |s| == |a| + 1 + |c| && s[..|a|] == a && s[|a|] == b && s[|a| + 1..] == c
    ensures s == a + [b] + c
  {
  }

  method EncodeBlock(block: array<bv8>, ghost plain: seq<bv8>)
    requires block.Length == 23 && block[..] == plain
    modifies block
    ensures Decoded(block[..]) == plain
  {
    WholeArray(block);
    Encode(block, 23);
    BufferRoundTrip(plain);
    assert block[..] == Encoded(plain) + [];
  }

  lemma WholeArray(block: array<bv8>)
    requires block.Length == 23
    ensures block[..23] == block[..] && block[23..] == []
  {
  }

  // ---- The keep-alive numbers ----

  function Twist(b: bv8): bv8 {
    !BitReverse(b)
  }

  /** How rjv3_process_result_prop reads the echo key. */
  function ReadTwisted(b: seq<bv8>): bv32
    requires |b| == 4
  {
    Octets.Join(BitReverse(!b[3]), BitReverse(!b[2]), BitReverse(!b[1]), BitReverse(!b[0]))
  }

  /** How rjv3_send_new_keepalive_frame writes its numbers. */
  function WriteTwisted(n: bv32): (r: seq<bv8>)
    ensures |r| == 4
  {
    [Twist(Octets.ByteOf(n, 24)), Twist(Octets.ByteOf(n, 16)), Twist(Octets.ByteOf(n, 8)), Twist(Octets.ByteOf(n, 0))]
  }

  lemma TwistUndone(b: bv8)
    ensures BitReverse(!Twist(b)) == b
  {
  }

  lemma JoinSplits(n: bv32)
    ensures Octets.Join(Octets.ByteOf(n, 0), Octets.ByteOf(n, 8), Octets.ByteOf(n, 16), Octets.ByteOf(n, 24)) == n
  {
  }

  lemma ReadUndoes(a: bv8, b: bv8, c: bv8, d: bv8)
    ensures ReadTwisted([Twist(a), Twist(b), Twist(c), Twist(d)]) == Octets.Join(d, c, b, a)
  {
    TwistUndone(a);
    TwistUndone(b);
    TwistUndone(c);
    TwistUndone(d);
  }

  /** The number's bytes go out from the highest to the lowest, each reversed and complemented. */
  lemma HighByteFirst()
    ensures WriteTwisted(0x8040_2010) == [0xFE, 0xFD, 0xFB, 0xF7]
  {
  }

  /** The number a keep-alive frame carries is read back by the code that reads the server's key. */
  lemma TwistedRoundTrip(n: bv32)
    ensures ReadTwisted(WriteTwisted(n)) == n
  {
    ReadUndoes(Octets.ByteOf(n, 24), Octets.ByteOf(n, 16), Octets.ByteOf(n, 8), Octets.ByteOf(n, 0));
    JoinSplits(n);
  }
}
