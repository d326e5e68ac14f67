/** md5.c: the context with its two-word bit count, over any transform. */
module Md5 {
  import opened Octets
  import opened MerkleDamgard

  datatype State = State(a: Word, b: Word, c: Word, d: Word)

  const IV := State(0x67452301, 0xefcdab89, 0x98badcfe, 0x10325476)

  const PADDING: Bytes := [0x80] + Zeros(63)

  function EncodeWords(w: seq<Word>): Bytes {
    if w == [] then [] else EncodeWords(w[..|w| - 1]) + LeBytes(w[|w| - 1], 4)
  }

  function Padded(m: Bytes): (r: Bytes)
    ensures |r| % BLOCK == 0
  {
    Pad(m, 0x80, LeBytes(BitLength(m), 8))
  }

  /** The digest of a whole message at once. */
  function Digest(f: BlockFunction<State>, m: Bytes): Bytes {
    var s := Absorb(f, IV, Padded(m));
    EncodeWords([s.a, s.b, s.c, s.d])
  }

  /** Encode: the words byte by byte, least significant first. */
  method Encode(input: seq<Word>) returns (output: array<Byte>)
    ensures fresh(output) && output[..] == EncodeWords(input)
  {
    output := new Byte[4 * |input|];
    var i, j := 0, 0;
    while j < 4 * |input|
      invariant 0 <= i <= |input| && j == 4 * i
      invariant output[..j] == EncodeWords(input[..i])
    {
      output[j] := input[i] % 256;
      output[j + 1] := input[i] / 0x100 % 256;
      output[j + 2] := input[i] / 0x1_0000 % 256;
      output[j + 3] := input[i] / 0x100_0000 % 256;
      LeBytesOfWord(input[i]);
      assert input[..i + 1][..i] == input[..i];
      assert output[..j + 4] == output[..j] + LeBytes(input[i], 4);
      i, j := i + 1, j + 4;
    }
    assert input[..i] == input;
  }

  lemma EncodedPair(low: Word, high: Word)
    ensures EncodeWords([low, high]) == LeBytes(high * TWO32 + low, 8)
  {
    LeBytesOfPair(low, high);
    assert [low, high][..1] == [low] && [low][..0] == [];
    assert EncodeWords([low]) == LeBytes(low, 4);
  }

  lemma ModOfPair(high: nat, low: Word)
    ensures (high * TWO32 + low) % TWO64 == (high % TWO32) * TWO32 + low
  {
    assert high * TWO32 + low == (high / TWO32) * TWO64 + (high % TWO32) * TWO32 + low;
  }

  /** The sum of the low words wrapped if and only if it is smaller than what was added. */
  lemma CarryIsExact(low: Word, high: Word, n: Word)
    ensures var added := n * 8 % TWO32;
            var low' := (low + added) % TWO32;
            var high' := ((if low' < added then (high + 1) % TWO32 else high) + n / 0x2000_0000) % TWO32;
            high' * TWO32 + low' == (high * TWO32 + low + 8 * n) % TWO64
  {
    var added, up := n * 8 % TWO32, n / 0x2000_0000;
    assert 8 * n == up * TWO32 + added;
    var low' := (low + added) % TWO32;
    var carry := if low + added < TWO32 then 0 else 1;
    assert low' == low + added - carry * TWO32;
    ModOfPair(high + up + carry, low');
    assert ((high + carry) % TWO32 + up) % TWO32 == (high + up + carry) % TWO32;
  }

  class Context {
    const transform: BlockFunction<State>
    var state: State
    var count0: Word
    var count1: Word
    const buffer: array<Byte>
    ghost var done: Bytes  // the whole blocks fed in so far
    ghost var rest: Bytes  // what is left over of the message

    ghost function Msg(): Bytes
      reads this
    {
      done + rest
    }

    ghost predicate Valid()
      reads this, buffer
    {
      && buffer.Length == BLOCK
      && |done| % BLOCK == 0 && |rest| < BLOCK
      && count1 * TWO32 + count0 == BitLength(done + rest)
      && state == Absorb(transform, IV, done)
      && buffer[..|rest|] == rest
    }

    /** MD5Init */
    constructor (transform: BlockFunction<State>)
      ensures Valid() && Msg() == [] && this.transform == transform && fresh(buffer)
    {
      this.transform := transform;
      state, count0, count1, done, rest := IV, 0, 0, [], [];
      buffer := new Byte[BLOCK];
    }

    /** The number of bits is kept in two 32-bit words with a carry between them. */
    method AddToCount(inputLen: Word)
      modifies this`count0, this`count1
      ensures count1 * TWO32 + count0 == (old(count1) * TWO32 + old(count0) + 8 * inputLen) % TWO64
    {
      CarryIsExact(count0, count1, inputLen);
      var added := inputLen * 8 % TWO32;
      count0 := (count0 + added) % TWO32;
      if count0 < added {
        count1 := (count1 + 1) % TWO32;
      }
      count1 := (count1 + inputLen / 0x2000_0000) % TWO32;
    }

    /**
     * MD5Update.  Chunks longer than 2^32 - 64 bytes would wrap `i + 63` in the block loop.
     */
    method Update(input: Bytes)
      requires Valid() && |input| <= TWO32 - BLOCK
      modifies this, buffer
      ensures Valid() && Msg() == old(Msg()) + input
    {
      var inputLen := |input|;
      var index := CountIn(input);
      var partLen := 64 - index;
      var i := 0;
      if inputLen >= partLen {
        i := TransformBlocks(input, index, partLen);
        index := 0;
      }
      Copy(index, input[i..]);
      Rejoin(done, rest, old(Msg()), input, i);
      rest := rest + input[i..];
    }

    /** The head of MD5Update: where the buffer is filled to, before the count goes up. */
    method CountIn(input: Bytes) returns (index: nat)
      requires Valid() && |input| <= TWO32 - BLOCK
      modifies this`count0, this`count1
      ensures index == |rest| && count1 * TWO32 + count0 == BitLength(done + rest + input)
    {
      index := Position();
      LengthsAdd(done + rest, input);
      AddToCount(|input|);
    }

    /** The middle of MD5Update: transform as many times as possible. */
    method TransformBlocks(input: Bytes, index: nat, partLen: nat) returns (i: nat)
      requires buffer.Length == BLOCK && |done| % BLOCK == 0 && state == Absorb(transform, IV, done)
      requires index == |rest| && index + partLen == BLOCK && buffer[..index] == rest
      requires partLen <= |input| <= TWO32 - BLOCK
      modifies this`state, this`done, this`rest, buffer
      ensures i <= |input| < i + BLOCK && |done| % BLOCK == 0 && state == Absorb(transform, IV, done)
      ensures rest == [] && done == old(done) + old(rest) + input[..i]
    {
      Copy(index, input[..partLen]);
      assert buffer[..] == buffer[..BLOCK] == rest + input[..partLen];
      Assoc(done, rest, input[..partLen]);
      ghost var before := done + rest;
      Feed(buffer[..]);
      rest := [];
      i := partLen;
      GuardIsExact(i, |input|);
      while (i + 63) % TWO32 < |input|
        invariant partLen <= i <= |input| && |done| % BLOCK == 0 && rest == []
        invariant (i + 63) % TWO32 < |input| <==> i + 64 <= |input|
        invariant done == before + input[..i] && state == Absorb(transform, IV, done)
        decreases |input| - i
      {
        Feed(input[i..i + 64]);
        NextBlock(before, input, i);
        i := i + 64;
        GuardIsExact(i, |input|);
      }
    }

    /** MD5Transform on the state. */
    method Feed(block: Bytes)
      requires |block| == BLOCK && |done| % BLOCK == 0 && state == Absorb(transform, IV, done)
      modifies this`state, this`done
      ensures done == old(done) + block && |done| % BLOCK == 0 && state == Absorb(transform, IV, done)
    {
      AbsorbBlock(transform, IV, done, block);
      state := transform(state, block);
      done := done + block;
    }

    /** The count, as it is before the padding is fed in */
    method LengthBits() returns (bits: array<Byte>)
      requires Valid()
      ensures fresh(bits) && bits[..] == LeBytes(BitLength(Msg()), 8)
    {
      EncodedPair(count0, count1);
      bits := Encode([count0, count1]);
    }

    method Position() returns (index: nat)
      requires Valid()
      ensures index == |rest|
    {
      IndexIsRest(count0, count1, done, rest);
      index := count0 / 8 % 64;
    }

    /** Pad to 56 mod 64 and append the length counted before the padding. */
    method FeedPadding()
      requires Valid()
      modifies this, buffer
      ensures Valid() && rest == [] && done == Padded(old(Msg()))
    {
      ghost var m := Msg();
      var bits := LengthBits();
      var index := Position();
      var padLen := if index < 56 then 56 - index else 120 - index;
      PaddingCompletes(done, rest);
      Update(PADDING[..padLen]);
      Update(bits[..]);
      assert done + rest == Padded(m);
      NothingLeft(done, rest);
    }

    method Wipe()
      requires buffer.Length == BLOCK
      modifies this`count0, this`count1, this`state, buffer
      ensures count0 == count1 == 0 && state == State(0, 0, 0, 0) && buffer[..] == Zeros(BLOCK)
    {
      state, count0, count1 := State(0, 0, 0, 0), 0, 0;
      forall k | 0 <= k < BLOCK {
        buffer[k] := 0;
      }
    }

    /** MD5Final: feed the padding and wipe the context. */
    method Final() returns (digest: array<Byte>)
      requires Valid()
      modifies this, buffer
      ensures fresh(digest) && digest[..] == Digest(transform, old(Msg()))
      ensures count0 == count1 == 0 && state == State(0, 0, 0, 0) && buffer[..] == Zeros(BLOCK)
    {
      FeedPadding();
      digest := Encode([state.a, state.b, state.c, state.d]);
      Wipe();
    }

    /** memcpy into the buffer */
    method Copy(index: nat, data: Bytes)
      requires index + |data| <= buffer.Length
      modifies buffer
      ensures buffer[..index + |data|] == old(buffer[..index]) + data
    {
      forall k | 0 <= k < |data| {
        buffer[index + k] := data[k];
      }
    }
  }

  lemma PaddingBytes(n: nat)
    requires 1 <= n <= |PADDING|
    ensures PADDING[..n] == [0x80] + Zeros(n - 1)
  {
  }

  lemma PadLength(done: nat, rest: nat)
    requires done % BLOCK == 0 && rest < BLOCK
    ensures ZeroCount(done + rest, 8) == (if rest < 56 then 56 - rest else 120 - rest) - 1
  {
    assert (done + rest) % BLOCK == rest;
  }

  /** The padding bytes MD5Final feeds in are those of `Padded`. */
  lemma PaddingCompletes(done: Bytes, rest: Bytes)
    requires |done| % BLOCK == 0 && |rest| < BLOCK
    ensures var m := done + rest;
            var padLen := if |rest| < 56 then 56 - |rest| else 120 - |rest|;
            m + PADDING[..padLen] + LeBytes(BitLength(m), 8) == Padded(m)
  {
    var m := done + rest;
    var padLen := if |rest| < 56 then 56 - |rest| else 120 - |rest|;
    PadLength(|done|, |rest|);
    PaddingBytes(padLen);
    Assoc(m, [0x80], Zeros(padLen - 1));
  }

  lemma NothingLeft(done: Bytes, rest: Bytes)
    requires |done| % BLOCK == 0 && |rest| < BLOCK && |done + rest| % BLOCK == 0
    ensures rest == [] && done == done + rest
  {
  }

  lemma LowBits(low: Word, high: Word, blocks: nat, r: nat)
    requires r < 64 && high * TWO32 + low == (512 * blocks + 8 * r) % TWO64
    ensures low / 8 % 64 == r
  {
    var wraps := (512 * blocks + 8 * r) / TWO64;
    var k := blocks - wraps * 0x80_0000_0000_0000 - high * 0x80_0000;
    assert low == 8 * r + 512 * k;
    assert low / 8 == r + 64 * k;
  }

  lemma IndexIsRest(low: Word, high: Word, done: Bytes, rest: Bytes)
    requires |done| % BLOCK == 0 && |rest| < BLOCK && high * TWO32 + low == BitLength(done + rest)
    ensures low / 8 % 64 == |rest|
  {
    assert 8 * |done + rest| == 512 * (|done| / BLOCK) + 8 * |rest|;
    LowBits(low, high, |done| / BLOCK, |rest|);
  }

  /** The guard of the block loop of MD5Update does not wrap. */
  lemma GuardIsExact(i: nat, inputLen: nat)
    requires i <= inputLen <= TWO32 - BLOCK
    ensures (i + 63) % TWO32 < inputLen <==> i + 64 <= inputLen
  {
  }

  lemma LengthsAdd(m: Bytes, input: Bytes)
    ensures (BitLength(m) + 8 * |input|) % TWO64 == BitLength(m + input)
  {
    CounterAdds(8 * |m|, 8 * |input|);
  }

  /** ComputeHash */
  method ComputeHash(transform: BlockFunction<State>, src: Bytes) returns (digest: array<Byte>)
    requires |src| <= TWO32 - BLOCK
    ensures fresh(digest) && digest[..] == Digest(transform, src)
  {
    var context := new Context(transform);
    context.Update(src);
    assert context.Msg() == [] + src == src;
    digest := context.Final();
  }

  /** Any number of updates: the digest depends only on the bytes, not on how they were cut up. */
  method HashChunks(transform: BlockFunction<State>, chunks: seq<Bytes>) returns (digest: array<Byte>)
    requires forall c :: c in chunks ==> |c| <= TWO32 - BLOCK
    ensures fresh(digest) && digest[..] == Digest(transform, Flatten(chunks))
  {
    var context := new Context(transform);
    var i := 0;
    while i < |chunks|
      invariant 0 <= i <= |chunks| && context.Valid() && context.transform == transform
      invariant fresh(context) && fresh(context.buffer) && context.Msg() == Flatten(chunks[..i])
    {
      assert chunks[..i + 1][..i] == chunks[..i];
      context.Update(chunks[i]);
      i := i + 1;
    }
    assert chunks[..i] == chunks;
    digest := context.Final();
  }

  /** Sections 3.1 and 3.2 of RFC 1321: one bit, zeros, and the bit length with its low-order byte first. */
  lemma PaddedLayout(m: Bytes)
    ensures PaddedAs(Padded(m), m, 0x80, 8, LeBytes(BitLength(m), 8))
  {
    assert LengthField(m, Zeros(0), false) == LeBytes(BitLength(m), 8);
    PadLayout(m, 0x80, 0, false);
  }

  /** Section 3.3 of RFC 1321 gives the initial words as bytes, low-order bytes first. */
  lemma InitialBytes()
    ensures EncodeWords([IV.a]) == [0x01, 0x23, 0x45, 0x67] && EncodeWords([IV.b]) == [0x89, 0xab, 0xcd, 0xef]
    ensures EncodeWords([IV.c]) == [0xfe, 0xdc, 0xba, 0x98] && EncodeWords([IV.d]) == [0x76, 0x54, 0x32, 0x10]
  {
    EncodeOne(IV.a);
    EncodeOne(IV.b);
    EncodeOne(IV.c);
    EncodeOne(IV.d);
  }

  lemma EncodeOne(w: Word)
    ensures EncodeWords([w]) == [w % 256, w / 0x100 % 256, w / 0x1_0000 % 256, w / 0x100_0000 % 256]
  {
    assert [w][..0] == [];
    assert EncodeWords([w]) == [] + LeBytes(w, 4);
    LeBytesOfWord(w);
  }

  lemma EncodeMore(w: seq<Word>, x: Word)
    ensures EncodeWords(w + [x]) == EncodeWords(w) + EncodeWords([x])
  {
    assert (w + [x])[..|w|] == w && [x][..0] == [];
    assert EncodeWords([x]) == [] + LeBytes(x, 4);
  }

  lemma EncodeFour(a: Word, b: Word, c: Word, d: Word)
    ensures EncodeWords([a, b, c, d]) == EncodeWords([a]) + EncodeWords([b]) + EncodeWords([c]) + EncodeWords([d])
  {
    EncodeMore([a], b);
    EncodeMore([a] + [b], c);
    EncodeMore([a] + [b] + [c], d);
    assert [a, b, c, d] == [a] + [b] + [c] + [d];
  }

  /** Section 3.5 of RFC 1321: sixteen bytes, from the low-order byte of the first word on. */
  lemma DigestBytes(f: BlockFunction<State>, m: Bytes)
    ensures var s := Absorb(f, IV, Padded(m));
            Digest(f, m) == EncodeWords([s.a]) + EncodeWords([s.b]) + EncodeWords([s.c]) + EncodeWords([s.d])
            && |Digest(f, m)| == 16 && Digest(f, m)[0] == s.a % 256
  {
    var s := Absorb(f, IV, Padded(m));
    EncodeFour(s.a, s.b, s.c, s.d);
    EncodeOne(s.a);
    EncodeOne(s.b);
    EncodeOne(s.c);
    EncodeOne(s.d);
  }
}
