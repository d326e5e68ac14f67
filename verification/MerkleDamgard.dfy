/**
 * What all the streaming hashes of the repository have in common: a block function folded over a padded
 * message, and a context that has absorbed the whole blocks seen so far and buffers the rest.  The block
 * function is a parameter.
 */
module MerkleDamgard {

  import opened Octets
  type BlockFunction<!S> = (S, Bytes) -> S

  const BLOCK := 64
  const TWO32 := 0x1_0000_0000
  const TWO64 := 0x1_0000_0000_0000_0000

  type Word = w: int | 0 <= w < TWO32

  /** The block function folded over the 64-byte blocks of `m`. */
  function Absorb<S>(f: BlockFunction<S>, iv: S, m: Bytes): S
    requires |m| % BLOCK == 0
  {
    if m == [] then iv else f(Absorb(f, iv, m[..|m| - BLOCK]), m[|m| - BLOCK..])
  }

  lemma AbsorbBlock<S>(f: BlockFunction<S>, iv: S, m: Bytes, block: Bytes)
    requires |m| % BLOCK == 0 && |block| == BLOCK
    ensures |m + block| % BLOCK == 0 && Absorb(f, iv, m + block) == f(Absorb(f, iv, m), block)
  {
    assert (m + block)[..|m + block| - BLOCK] == m;
  }

  /** `done` and `rest` make up the message so far; the rest of the chunk completes them. */
  lemma Rejoin(done: Bytes, rest: Bytes, m: Bytes, chunk: Bytes, i: nat)
    requires i <= |chunk| && done + rest == m + chunk[..i]
    ensures done + (rest + chunk[i..]) == m + chunk
  {
    Assoc(done, rest, chunk[i..]);
    Assoc(m, chunk[..i], chunk[i..]);
    assert chunk[..i] + chunk[i..] == chunk;
  }

  lemma NextBlock(before: Bytes, msg: Bytes, pos: nat)
    requires pos + 64 <= |msg|
    ensures before + msg[..pos] + msg[pos..pos + 64] == before + msg[..pos + 64]
  {
  }

  function Zeros(n: nat): (r: Bytes)
    ensures |r| == n
  {
    seq(n, _ => 0)
  }

  /** The `k` low bytes of `n`, least significant first. */
  function LeBytes(n: nat, k: nat): (r: Bytes)
    ensures |r| == k
  {
    if k == 0 then [] else [n % 256] + LeBytes(n / 256, k - 1)
  }

  /** The `k` low bytes of `n`, most significant first. */
  function BeBytes(n: nat, k: nat): (r: Bytes)
    ensures |r| == k
  {
    if k == 0 then [] else BeBytes(n / 256, k - 1) + [n % 256]
  }

  lemma LeBytesOfWord(w: Word)
    ensures LeBytes(w, 4) == [w % 256, w / 0x100 % 256, w / 0x1_0000 % 256, w / 0x100_0000 % 256]
  {
    assert LeBytes(w, 4) == [w % 256] + LeBytes(w / 256, 3);
    assert LeBytes(w / 256, 3) == [w / 256 % 256] + LeBytes(w / 256 / 256, 2);
    assert LeBytes(w / 256 / 256, 2) == [w / 256 / 256 % 256] + LeBytes(w / 256 / 256 / 256, 1);
  }

  lemma LeBytesOfPair(low: Word, high: Word)
    ensures LeBytes(high * TWO32 + low, 8) == LeBytes(low, 4) + LeBytes(high, 4)
  {
    var n := high * TWO32 + low;
    LeBytesPrefix(n, low, high, 4, 8, 0x1_0000_0000, LeBytes(high, 4));
  }

  lemma OneByteDown(n: nat, low: nat, high: nat, p: nat, q: nat)
    requires p == 256 * q && n == high * p + low && low < p
    ensures n % 256 == low % 256 && n / 256 == high * q + low / 256 && low / 256 < q
  {
    assert n == 256 * (high * q) + low by {
      assert high * (256 * q) == 256 * (high * q);
    }
  }

  lemma LeBytesHead(n: nat, k: nat, low: Byte, more: nat)
    requires k > 0 && n % 256 == low && n / 256 == more
    ensures LeBytes(n, k) == [low] + LeBytes(more, k - 1)
  {
  }

  lemma {:induction false} LeBytesPrefix(n: nat, low: nat, high: nat, k: nat, m: nat, p: nat, last: Bytes)
    requires p == Power256(k) && low < p && n == high * p + low && m == k + 4 && last == LeBytes(high, 4)
    ensures LeBytes(n, m) == LeBytes(low, k) + last
    decreases k
  {
    if k == 0 {
      assert n == high;
    } else {
      var q := Power256(k - 1);
      OneByteDown(n, low, high, p, q);
      LeBytesPrefix(n / 256, low / 256, high, k - 1, m - 1, q, last);
      LeBytesHead(n, m, low % 256, n / 256);
      LeBytesHead(low, k, low % 256, low / 256);
      Assoc([low % 256], LeBytes(low / 256, k - 1), last);
    }
  }

  lemma BeBytesOfPair(low: Word, high: Word)
    ensures BeBytes(high * TWO32 + low, 8) == BeBytes(high, 4) + BeBytes(low, 4)
  {
    BeBytesSuffix(high * TWO32 + low, low, high, 4, 0x1_0000_0000);
  }

  lemma {:induction false} BeBytesSuffix(n: nat, low: nat, high: nat, k: nat, p: nat)
    requires p == Power256(k) && low < p && n == high * p + low
    ensures BeBytes(n, k + 4) == BeBytes(high, 4) + BeBytes(low, k)
  {
    if k == 0 {
    } else {
      var q := Power256(k - 1);
      OneByteDown(n, low, high, p, q);
      BeBytesSuffix(n / 256, low / 256, high, k - 1, q);
    }
  }

  /** How many zero bytes complete `n` message bytes, the marker byte and `reserved` bytes to a block. */
  function ZeroCount(n: nat, reserved: nat): (z: nat)
    ensures (n + 1 + z + reserved) % BLOCK == 0 && z < BLOCK
  {
    var over := (n + 1 + reserved) % BLOCK;
    if over == 0 then 0 else BLOCK - over
  }

  /** A message padded to whole blocks: a marker, the fewest zeros that fit, the length field. */
  function Pad(m: Bytes, marker: Byte, lengthField: Bytes): (r: Bytes)
    ensures |r| % BLOCK == 0
  {
    m + [marker] + Zeros(ZeroCount(|m|, |lengthField|)) + lengthField
  }

  function BitLength(m: Bytes): (n: nat)
    ensures n < TWO64
  {
    8 * |m| % TWO64
  }

  lemma Wraps(a: int, k: int)
    ensures (a + TWO64 * k) % TWO64 == a % TWO64
  {
    var x := a + TWO64 * k;
    var d := x / TWO64 - a / TWO64 - k;
    assert x == TWO64 * (x / TWO64) + x % TWO64 && a == TWO64 * (a / TWO64) + a % TWO64;
    assert TWO64 * d == a % TWO64 - x % TWO64;
    assert -1 < d < 1;
  }

  /** A 64-bit counter that wraps still counts modulo 2^64. */
  lemma CounterAdds(n: nat, more: nat)
    ensures (n % TWO64 + more) % TWO64 == (n + more) % TWO64
  {
    Wraps(n % TWO64 + more, n / TWO64);
  }

  lemma CounterTimesEight(n: nat)
    ensures n % TWO64 * 8 % TWO64 == 8 * n % TWO64
  {
    Wraps(n % TWO64 * 8, 8 * (n / TWO64));
  }

  function Flatten(chunks: seq<Bytes>): Bytes {
    if chunks == [] then [] else Flatten(chunks[..|chunks| - 1]) + chunks[|chunks| - 1]
  }

  /** The blocks a context still has to process when `rest` is in its buffer. */
  lemma LastBlocks(done: Bytes, rest: Bytes, marker: Byte, lengthField: Bytes)
    requires |done| % BLOCK == 0 && |rest| < BLOCK && |lengthField| < BLOCK
    ensures Pad(done + rest, marker, lengthField)
            == if |rest| + 1 + |lengthField| <= BLOCK
               then done + (rest + [marker] + Zeros(BLOCK - 1 - |rest| - |lengthField|) + lengthField)
               else done + (rest + [marker] + Zeros(BLOCK - 1 - |rest|)) + (Zeros(BLOCK - |lengthField|) + lengthField)
  {
    var z := ZeroCount(|done + rest|, |lengthField|);
    ZerosNeeded(|done|, |rest|, |lengthField|);
    JoinBlocks(done, rest + [marker], z, lengthField);
    assert done + rest + [marker] == done + (rest + [marker]);
  }

  lemma ZerosNeeded(done: nat, rest: nat, lengthField: nat)
    requires done % BLOCK == 0 && rest < BLOCK && lengthField < BLOCK
    ensures ZeroCount(done + rest, lengthField)
         == if rest + 1 + lengthField <= BLOCK then BLOCK - 1 - rest - lengthField
            else (BLOCK - 1 - rest) + (BLOCK - lengthField)
  {
    assert (done + rest) % BLOCK == rest;
  }

  lemma JoinBlocks(done: Bytes, front: Bytes, z: nat, lengthField: Bytes)
    requires |front| <= BLOCK && |lengthField| < BLOCK
    ensures done + front + Zeros(z) + lengthField == done + (front + Zeros(z) + lengthField)
    ensures z == (BLOCK - |front|) + (BLOCK - |lengthField|) ==>
              done + front + Zeros(z) + lengthField
              == done + (front + Zeros(BLOCK - |front|)) + (Zeros(BLOCK - |lengthField|) + lengthField)
  {
    if z == (BLOCK - |front|) + (BLOCK - |lengthField|) {
      assert Zeros(z) == Zeros(BLOCK - |front|) + Zeros(BLOCK - |lengthField|);
    }
  }

  // ---- Padding loses nothing ----

  function Power256(k: nat): (p: nat)
    ensures p > 0
  {
    if k == 0 then 1 else 256 * Power256(k - 1)
  }

  function LeValue(b: Bytes): nat {
    if b == [] then 0 else b[0] + 256 * LeValue(b[1..])
  }

  function BeValue(b: Bytes): nat {
    if b == [] then 0 else 256 * BeValue(b[..|b| - 1]) + b[|b| - 1]
  }

  lemma {:induction false} ReadBack(n: nat, k: nat)
    requires n < Power256(k)
    ensures LeValue(LeBytes(n, k)) == n && BeValue(BeBytes(n, k)) == n
  {
    if k > 0 {
      ReadBack(n / 256, k - 1);
      assert n / 256 < Power256(k - 1) && LeBytes(n, k)[0] == n % 256;
      assert LeBytes(n, k)[1..] == LeBytes(n / 256, k - 1);
      assert BeBytes(n, k)[..k - 1] == BeBytes(n / 256, k - 1);
    }
  }

  /** The bit length in eight bytes, behind `high` bytes that do not depend on the message. */
  function LengthField(m: Bytes, high: Bytes, bigEndian: bool): (r: Bytes)
    ensures |r| == |high| + 8
  {
    high + LengthBytes(BitLength(m), bigEndian)
  }

  lemma EightBytes()
    ensures Power256(8) == TWO64
  {
    assert Power256(2) == 0x1_0000;
    assert Power256(4) == TWO32;
    assert Power256(6) == 0x1_0000 * TWO32;
  }

  function LengthBytes(n: nat, bigEndian: bool): (r: Bytes)
    ensures |r| == 8
  {
    if bigEndian then BeBytes(n, 8) else LeBytes(n, 8)
  }

  function LengthValue(b: Bytes, bigEndian: bool): nat {
    if bigEndian then BeValue(b) else LeValue(b)
  }

  lemma LengthReadsBack(m: Bytes, bigEndian: bool)
    requires |m| < TWO64 / 8
    ensures LengthValue(LengthBytes(BitLength(m), bigEndian), bigEndian) == 8 * |m|
  {
    EightBytes();
    ReadBack(BitLength(m), 8);
  }

  lemma PadPieces(m: Bytes, marker: Byte, zeros: Bytes, high: Bytes, last: Bytes)
    ensures var p := m + [marker] + zeros + (high + last);
            |p| >= |last| && p[..|m|] == m && p[|p| - |last|..] == last
  {
  }

  /** Below 2^61 bytes, a padded message ending in its bit length determines the message. */
  lemma PadIsInjective(m: Bytes, n: Bytes, marker: Byte, high: Bytes, bigEndian: bool)
    requires |m| < TWO64 / 8 && |n| < TWO64 / 8
    requires Pad(m, marker, LengthField(m, high, bigEndian)) == Pad(n, marker, LengthField(n, high, bigEndian))
    ensures m == n
  {
    var p := Pad(m, marker, LengthField(m, high, bigEndian));
    PadPieces(m, marker, Zeros(ZeroCount(|m|, |high| + 8)), high, LengthBytes(BitLength(m), bigEndian));
    PadPieces(n, marker, Zeros(ZeroCount(|n|, |high| + 8)), high, LengthBytes(BitLength(n), bigEndian));
    LengthReadsBack(m, bigEndian);
    LengthReadsBack(n, bigEndian);
    assert |m| == |n|;
  }

  // ---- What a padded message looks like ----

  /** Whole blocks, as few as hold the message, the marker and `reserved` bytes; zeros, and `last` at the end. */
  ghost predicate PaddedAs(p: Bytes, m: Bytes, marker: Byte, reserved: nat, last: Bytes) {
    && |p| % 64 == 0 && |m| + 1 + reserved <= |p| < |m| + 1 + reserved + 64
    && p[..|m|] == m && p[|m|] == marker
    && |last| <= reserved && p[|p| - |last|..] == last
    && (forall i :: |m| < i < |p| - |last| ==> p[i] == 0)
  }

  lemma PiecesPad(m: Bytes, marker: Byte, zeros: nat, high: nat, last: Bytes)
    requires (|m| + 1 + zeros + high + |last|) % 64 == 0 && zeros < 64
    ensures PaddedAs(m + [marker] + Zeros(zeros) + (Zeros(high) + last), m, marker, high + |last|, last)
  {
    var p := m + [marker] + Zeros(zeros) + (Zeros(high) + last);
    PadPieces(m, marker, Zeros(zeros), Zeros(high), last);
    forall i | |m| < i < |p| - |last|
      ensures p[i] == 0
    {
      if i < |m| + 1 + zeros {
        assert p[i] == Zeros(zeros)[i - |m| - 1];
      } else {
        assert p[i] == Zeros(high)[i - |m| - 1 - zeros];
      }
    }
  }

  /** Padding with `high` zero bytes in front of the bit length reserves eight bytes more than those. */
  lemma PadLayout(m: Bytes, marker: Byte, high: nat, bigEndian: bool)
    ensures PaddedAs(Pad(m, marker, LengthField(m, Zeros(high), bigEndian)), m, marker, high + 8,
                     if bigEndian then BeBytes(BitLength(m), 8) else LeBytes(BitLength(m), 8))
  {
    PiecesPad(m, marker, ZeroCount(|m|, high + 8), high, LengthBytes(BitLength(m), bigEndian));
  }

  /** The two byte orders mirror each other, and the first of them begins with the lowest byte. */
  lemma {:induction false} ByteOrdersMirror(n: nat, k: nat, i: nat)
    requires i < k
    ensures LeBytes(n, k)[i] == BeBytes(n, k)[k - 1 - i] && LeBytes(n, k)[0] == n % 256
  {
    if i > 0 {
      ByteOrdersMirror(n / 256, k - 1, i - 1);
    }
  }

  /** Two blocks are processed in the order they come in, from the initial state. */
  lemma AbsorbsInOrder<S>(f: BlockFunction<S>, iv: S, first: Bytes, second: Bytes)
    requires |first| == 64 && |second| == 64
    ensures Absorb(f, iv, first + second) == f(f(iv, first), second)
  {
    AbsorbBlock(f, iv, [], first);
    AbsorbBlock(f, iv, first, second);
    assert [] + first == first;
  }
}
