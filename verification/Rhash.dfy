/**
 * The four rhash contexts (rjmd5.c, rjsha1.c, rjtiger.c, rjwhirlpool.c).  Their update functions do the
 * same thing; they differ in how the last blocks are padded.  On the little-endian machines modelled here
 * a word array is its bytes, least significant first.
 */
module Rhash {
  import opened Octets
  import opened MerkleDamgard

  /** rjmd5.c and, apart from the marker, rjtiger.c: eight length bytes, least significant first. */
  function LittlePadded(m: Bytes, marker: Byte): (r: Bytes)
    ensures |r| % BLOCK == 0
  {
    Pad(m, marker, LengthField(m, [], false))
  }

  /** rjsha1.c: eight length bytes, most significant first. */
  function BigPadded(m: Bytes): (r: Bytes)
    ensures |r| % BLOCK == 0
  {
    Pad(m, 0x80, LengthField(m, [], true))
  }

  /** rjwhirlpool.c: thirty-two length bytes, of which only the last eight are ever used. */
  function WidePadded(m: Bytes): (r: Bytes)
    ensures |r| % BLOCK == 0
  {
    Pad(m, 0x80, LengthField(m, Zeros(24), true))
  }

  function Load(b: Bytes): bv32
    requires |b| == 4
  {
    Join(b[0] as bv8, b[1] as bv8, b[2] as bv8, b[3] as bv8)
  }

  function Store(x: bv32): (r: Bytes)
    ensures |r| == 4
  {
    [ByteOf(x, 0) as int, ByteOf(x, 8) as int, ByteOf(x, 16) as int, ByteOf(x, 24) as int]
  }

  /** The shift that skips `k` bytes of a word, `8 * k`. */
  function Shift(k: nat): (r: bv32)
    requires k < 4
    ensures r <= 24
  {
    if k == 0 then 0 else if k == 1 then 8 else if k == 2 then 16 else 24
  }

  /** The two assignments of rjmd5.c: clear what is not below the shift, then flip the marker's bit. */
  function MaskAndMark(x: bv32, shift: bv32): bv32
    requires shift <= 24
  {
    (x & !(0xFFFF_FFFF << shift)) ^ (0x80 << shift)
  }

  class Context<S(0)> {
    const transform: BlockFunction<S>
    const iv: S
    var hash: S
    const message: array<Byte>
    var length: nat  // number of processed bytes, a 64-bit counter
    ghost var done: Bytes
    ghost var rest: Bytes

    ghost function Msg(): Bytes
      reads this
    {
      done + rest
    }

    ghost predicate Valid()
      reads this, message
    {
      && message.Length == BLOCK
      && |done| % BLOCK == 0 && |rest| < BLOCK
      && length == |done + rest| % TWO64
      && hash == Absorb(transform, iv, done)
      && message[..|rest|] == rest
    }

    constructor (transform: BlockFunction<S>, iv: S)
      ensures Valid() && Msg() == [] && this.transform == transform && this.iv == iv && fresh(message)
    {
      this.transform, this.iv := transform, iv;
      hash, length, done, rest := iv, 0, [], [];
      message := new Byte[BLOCK];
    }

    /** memcpy or le32_copy into the message buffer */
    method Copy(index: nat, data: Bytes)
      requires index + |data| <= message.Length
      modifies message
      ensures message[..index + |data|] == old(message[..index]) + data
    {
      forall k | 0 <= k < |data| {
        message[index + k] := data[k];
      }
    }

    /** process_block on the state */
    method Feed(block: Bytes)
      requires |block| == BLOCK && |done| % BLOCK == 0 && hash == Absorb(transform, iv, done)
      modifies this`hash, this`done
      ensures done == old(done) + block && |done| % BLOCK == 0 && hash == Absorb(transform, iv, done)
    {
      AbsorbBlock(transform, iv, done, block);
      hash := transform(hash, block);
      done := done + block;
    }

    /** rhash_*_update; `aligned` says whether the chunk can be processed where it lies. */
    method Update(msg: Bytes, aligned: bool)
      requires Valid()
      modifies this, message
      ensures Valid() && Msg() == old(Msg()) + msg
    {
      var index := CountIn(msg);
      var pos := 0;
      if index != 0 {
        var left := 64 - index;
        Copy(index, if |msg| < left then msg else msg[..left]);
        if |msg| < left {
          Assoc(done, rest, msg);
          rest := rest + msg;
          return;
        }
        Assoc(done, rest, msg[..left]);
        assert message[..] == rest + msg[..left];
        Feed(message[..]);
        rest := [];
        pos := left;
      }
      FeedBlocksAndKeepRest(msg, pos, aligned, old(Msg()));
    }

    /** The head of an update: where the buffer is filled to, before the length goes up. */
    method CountIn(msg: Bytes) returns (index: nat)
      requires Valid()
      modifies this`length
      ensures index == |rest| && length == |done + rest + msg| % TWO64
    {
      IndexIsRest(done, rest);
      index := length % 64;
      LengthsAdd(done + rest, msg);
      length := (length + |msg|) % TWO64;
    }

    /** The second half of an update: whole blocks, then the leftovers. */
    method FeedBlocksAndKeepRest(msg: Bytes, start: nat, aligned: bool, ghost before: Bytes)
      requires start <= |msg| && message.Length == BLOCK && |done| % BLOCK == 0 && hash == Absorb(transform, iv, done)
      requires rest == [] && done == before + msg[..start] && length == |before + msg| % TWO64
      modifies this`hash, this`done, this`rest, message
      ensures Valid() && Msg() == before + msg
    {
      var pos := FeedBlocks(msg, start, aligned, before);
      if |msg| - pos != 0 {
        Copy(0, msg[pos..]);
      }
      Rejoin(done, [], before, msg, pos);
      rest := msg[pos..];
    }

    /** One block, processed where it lies or after a copy. */
    method FeedOne(msg: Bytes, pos: nat, aligned: bool)
      requires pos + 64 <= |msg| && message.Length == BLOCK && |done| % BLOCK == 0
        && hash == Absorb(transform, iv, done)
      modifies this`hash, this`done, message
      ensures done == old(done) + msg[pos..pos + 64] && |done| % BLOCK == 0 && hash == Absorb(transform, iv, done)
    {
      var block := msg[pos..pos + 64];
      if !aligned {
        Copy(0, block);
        assert message[..] == message[..64] == [] + block == block;
        block := message[..];
      }
      Feed(block);
    }

    /** The loop over whole blocks. */
    method FeedBlocks(msg: Bytes, start: nat, aligned: bool, ghost before: Bytes) returns (pos: nat)
      requires start <= |msg| && message.Length == BLOCK && |done| % BLOCK == 0 && hash == Absorb(transform, iv, done)
      requires rest == [] && done == before + msg[..start]
      modifies this`hash, this`done, message
      ensures pos <= |msg| < pos + BLOCK && |done| % BLOCK == 0 && hash == Absorb(transform, iv, done)
      ensures done == before + msg[..pos] && done + [] == before + msg[..pos]
    {
      pos := start;
      while |msg| - pos >= 64
        invariant pos <= |msg| && |done| % BLOCK == 0 && hash == Absorb(transform, iv, done)
        invariant done == before + msg[..pos]
      {
        FeedOne(msg, pos, aligned);
        NextBlock(before, msg, pos);
        pos := pos + 64;
      }
    }

    /** Zero bytes up to byte `to` */
    method ZeroTo(from: nat, to: nat)
      requires from <= to <= message.Length
      modifies message
      ensures message[..to] == old(message[..from]) + Zeros(to - from)
    {
      var index := from;
      while index < to
        invariant from <= index <= to
        invariant message[..index] == old(message[..from]) + Zeros(index - from)
      {
        message[index] := 0;
        assert message[..index + 1] == message[..index] + [0];
        index := index + 1;
      }
    }

    /** The assignment of one word of the message array, as the bytes it leaves in memory. */
    method StoreWord(index: nat, bytes: Bytes)
      requires |bytes| == 4 && 4 * index + 4 <= message.Length
      modifies message
      ensures message[..4 * index + 4] == old(message[..4 * index]) + bytes
      ensures message[4 * index + 4..] == old(message[4 * index + 4..])
    {
      message[4 * index] := bytes[0];
      message[4 * index + 1] := bytes[1];
      message[4 * index + 2] := bytes[2];
      message[4 * index + 3] := bytes[3];
    }

    /** Zero words up to word `to` */
    method ZeroWordsTo(from: nat, to: nat)
      requires from <= to && 4 * to <= message.Length
      modifies message
      ensures message[..4 * to] == old(message[..4 * from]) + Zeros(4 * (to - from))
    {
      var index := from;
      while index < to
        invariant from <= index <= to
        invariant message[..4 * index] == old(message[..4 * from]) + Zeros(4 * (index - from))
      {
        StoreWord(index, LeBytes(0, 4));
        assert LeBytes(0, 4) == Zeros(4) by { LeBytesOfWord(0); }
        index := index + 1;
      }
    }

    /** The marker goes behind the buffered bytes. */
    method MarkByte(marker: Byte) returns (index: nat)
      requires Valid()
      modifies message
      ensures index == |rest| + 1 <= message.Length && message[..index] == rest + [marker]
    {
      IndexIsRest(done, rest);
      index := length % 64;
      message[index] := marker;
      index := index + 1;
    }

    /** No room for the length: fill the block with zeros and process it. */
    method Spill(index: nat, ghost front: Bytes)
      requires index <= 64 == message.Length && message[..index] == front
        && |done| % BLOCK == 0 && hash == Absorb(transform, iv, done)
      modifies this`hash, this`done, message
      ensures done == old(done) + (front + Zeros(64 - index))
      ensures |done| % BLOCK == 0 && hash == Absorb(transform, iv, done)
    {
      ZeroTo(index, 64);
      assert message[..] == message[..64];
      Feed(message[..]);
    }

    /** Zeros up to byte 56, the length, and the last block. */
    method Finish(index: nat, lengthBytes: Bytes, ghost front: Bytes)
      requires index <= 56 && message.Length == 64 && |lengthBytes| == 8 && message[..index] == front
      requires |done| % BLOCK == 0 && hash == Absorb(transform, iv, done)
      modifies this`hash, this`done, message
      ensures done == old(done) + (front + Zeros(56 - index) + lengthBytes)
      ensures |done| % BLOCK == 0 && hash == Absorb(transform, iv, done)
    {
      ZeroTo(index, 56);
      Copy(56, lengthBytes);
      assert message[..] == message[..64];
      Feed(message[..]);
    }

    /** No room for the length, counting in words: fill the block with zeros and process it. */
    method SpillWords(index: nat, ghost words: Bytes)
      requires index <= 16 && message.Length == 64 && message[..4 * index] == words
      requires |done| % BLOCK == 0 && hash == Absorb(transform, iv, done)
      modifies this`hash, this`done, message
      ensures done == old(done) + (words + Zeros(64 - |words|))
      ensures |done| % BLOCK == 0 && hash == Absorb(transform, iv, done)
    {
      ZeroWordsTo(index, 16);
      assert message[..] == message[..64] == words + Zeros(64 - |words|);
      Feed(message[..]);
    }

    /** Zero words up to word 14, the two words of the length, and the last block. */
    method FinishWords(index: nat, word14: Bytes, word15: Bytes, ghost words: Bytes)
      requires index <= 14 && message.Length == 64 && |word14| == |word15| == 4 && message[..4 * index] == words
      requires |done| % BLOCK == 0 && hash == Absorb(transform, iv, done)
      modifies this`hash, this`done, message
      ensures done == old(done) + (words + Zeros(56 - |words|) + (word14 + word15))
      ensures |done| % BLOCK == 0 && hash == Absorb(transform, iv, done)
    {
      ZeroWordsTo(index, 14);
      StoreWord(14, word14);
      StoreWord(15, word15);
      Assoc(words + Zeros(56 - |words|), word14, word15);
      assert message[..] == message[..64] == words + Zeros(56 - |words|) + (word14 + word15);
      Feed(message[..]);
    }

    /** The end of rhash_md5_final and rhash_sha1_final, once the marker and zeros fill the words before `from`. */
    method PadWords(from: nat, word14: Bytes, word15: Bytes, ghost front: Bytes)
      requires from <= 16 && message.Length == 64 && |word14| == |word15| == 4
      requires |front| <= 4 * from < |front| + 4 && message[..4 * from] == front + Zeros(4 * from - |front|)
      requires |done| % BLOCK == 0 && hash == Absorb(transform, iv, done)
      modifies this`hash, this`done, message
      ensures done == Blocks(old(done), front, word14 + word15)
      ensures |done| % BLOCK == 0 && hash == Absorb(transform, iv, done)
    {
      ghost var words, before := message[..4 * from], done;
      WordBlocks(before, front, words, word14 + word15, from);
      if from > 14 {
        SpillWords(from, words);
        FinishWords(0, word14, word15, []);
        assert [] + Zeros(56) == Zeros(56);
      } else {
        FinishWords(from, word14, word15, words);
      }
    }

    /** Keep `k` bytes of the word at `index`, put the marker behind them and clear the rest. */
    method MarkWord(index: nat, k: nat)
      requires k < 4 && 4 * index + 4 <= message.Length
      modifies message
      ensures message[..4 * index + 4] == old(message[..4 * index + k]) + [0x80] + Zeros(3 - k)
    {
      ghost var b, start := message[4 * index..4 * index + 4], message[..4 * index];
      var word := Load(message[4 * index..4 * index + 4]);
      word := MaskAndMark(word, Shift(k));
      MarkedWord(b, k);
      StoreWord(index, Store(word));
      assert start + (b[..k] + [0x80] + Zeros(3 - k)) == (start + b[..k]) + [0x80] + Zeros(3 - k);
      assert start + b[..k] == old(message[..4 * index + k]);
    }

    /** The word the message ends in, and how many of its bytes belong to the message. */
    method WordPosition() returns (index: nat, k: nat)
      requires Valid()
      ensures 4 * index + k == |rest| && k < 4
    {
      IndexIsRest(done, rest);
      index, k := length % 64 / 4, length % 64 % 4;
    }

    /** The last two words, as the bytes they leave in memory. */
    method LengthWords(bigEndian: bool) returns (word14: Bytes, word15: Bytes)
      requires Valid()
      ensures |word14| == |word15| == 4 && word14 + word15 == LengthBytes(BitLength(Msg()), bigEndian)
    {
      LengthHalves(Msg(), length);
      if bigEndian {
        word14, word15 := BeBytes(length / 0x2000_0000 % TWO32, 4), BeBytes(length * 8 % TWO32, 4);
      } else {
        word14, word15 := LeBytes(length * 8 % TWO32, 4), LeBytes(length / 0x2000_0000 % TWO32, 4);
      }
    }

    /**
     * rhash_md5_final: the marker is put into its word by masking and exclusive or; from there on the
     * padding is done in words, the length as two little-endian ones.
     */
    method Md5Final() returns (result: S)
      requires Valid()
      modifies this, message
      ensures result == Absorb(transform, iv, LittlePadded(old(Msg()), 0x80))
    {
      ghost var d, r := done, rest;
      var word14, word15 := LengthWords(false);
      var index, k := WordPosition();
      MarkWord(index, k);
      assert message[..4 * (index + 1)] == (r + [0x80]) + Zeros(3 - k);
      PadWords(index + 1, word14, word15, r + [0x80]);
      assert done == LittlePadded(d + r, 0x80) by {
        LastNarrowBlocks(d, r, 0x80, false);
      }
      result := hash;
    }

    /**
     * rhash_sha1_final: zero bytes up to a word boundary, then zero words, then the length as two
     * big-endian words.
     */
    method Sha1Final() returns (result: S)
      requires Valid()
      modifies this, message
      ensures result == Absorb(transform, iv, BigPadded(old(Msg())))
    {
      ghost var d, r := done, rest;
      var word14, word15 := LengthWords(true);
      var index := MarkByte(0x80);
      var from := (index + 3) / 4;
      assert index <= 4 * from < index + 4 && from <= 16;
      ZeroTo(index, 4 * from);
      PadWords(from, word14, word15, rest + [0x80]);
      assert done == BigPadded(d + r) by {
        LastNarrowBlocks(d, r, 0x80, true);
      }
      result := hash;
    }

    /**
     * The end of rhash_tiger_final and rhash_whirlpool_final: if there is no room behind `limit` the block is
     * filled and processed, then come zeros up to byte 56 and the length.
     */
    method PadBytes(from: nat, limit: nat, last: Bytes, ghost front: Bytes)
      requires |front| == from <= 64 == message.Length && message[..from] == front && limit <= 56 && |last| == 8
      requires |done| % BLOCK == 0 && hash == Absorb(transform, iv, done)
      modifies this`hash, this`done, message
      ensures from <= limit ==> done == old(done) + (front + Zeros(56 - from) + last)
      ensures from > limit ==> done == old(done) + (front + Zeros(64 - from)) + (Zeros(56) + last)
      ensures |done| % BLOCK == 0 && hash == Absorb(transform, iv, done)
    {
      if from > limit {
        Spill(from, front);
        Finish(0, last, []);
        assert [] + Zeros(56) == Zeros(56);
      } else {
        Finish(from, last, front);
      }
    }

    /** The same for eight length bytes. */
    method PadNarrow(from: nat, last: Bytes, ghost front: Bytes)
      requires |front| == from <= 64 == message.Length && message[..from] == front && |last| == 8
      requires |done| % BLOCK == 0 && hash == Absorb(transform, iv, done)
      modifies this`hash, this`done, message
      ensures done == Blocks(old(done), front, last)
      ensures |done| % BLOCK == 0 && hash == Absorb(transform, iv, done)
    {
      PadBytes(from, 56, last, front);
    }

    /** The bit length, shifted out of the byte count in 64 bits. */
    method LengthInBits() returns (bits: nat)
      requires Valid()
      ensures bits == BitLength(Msg())
    {
      LengthIsField(Msg(), length);
      bits := length * 8 % TWO64;
    }

    /**
     * rhash_tiger_final: the marker is 0x80 for Tiger2 and 0x01 otherwise, then zeros to byte 56, then the
     * length in bits as one little-endian word.
     */
    method TigerFinal(tiger2: bool) returns (result: S)
      requires Valid()
      modifies this, message
      ensures result == Absorb(transform, iv, LittlePadded(old(Msg()), if tiger2 then 0x80 else 0x01))
    {
      var marker: Byte := if tiger2 then 0x80 else 0x01;
      ghost var d, r := done, rest;
      var bits := LengthInBits();
      var index := MarkByte(marker);
      PadNarrow(index, LeBytes(bits, 8), r + [marker]);
      LastNarrowBlocks(d, r, marker, false);
      assert done == LittlePadded(d + r, marker);
      result := hash;
    }

    /** rhash_whirlpool_final: as Tiger, but leaving room for 32 length bytes and storing them big-endian. */
    method WhirlpoolFinal() returns (result: S)
      requires Valid()
      modifies this, message
      ensures result == Absorb(transform, iv, WidePadded(old(Msg())))
    {
      ghost var d, r := done, rest;
      var bits := LengthInBits();
      var index := MarkByte(0x80);
      PadBytes(index, 32, BeBytes(bits, 8), rest + [0x80]);
      WideLast(d, r + [0x80], BeBytes(bits, 8));
      assert done == WidePadded(d + r) by {
        LastBlocks(d, r, 0x80, LengthField(d + r, Zeros(24), true));
      }
      result := hash;
    }
  }

  lemma HalvesAdd(length: nat)
    requires length < TWO64
    ensures (length / 0x2000_0000 % TWO32) * TWO32 + length * 8 % TWO32 == length * 8 % TWO64
  {
    var up := length / 0x2000_0000;
    assert length * 8 == up * TWO32 + length * 8 % TWO32;
    assert up == up / TWO32 * TWO32 + up % TWO32;
  }

  /** The two halves of the bit length as rjmd5.c and rjsha1.c shift them out of the byte count. */
  lemma LengthHalves(m: Bytes, length: nat)
    requires length == |m| % TWO64
    ensures var low, high := length * 8 % TWO32, length / 0x2000_0000 % TWO32;
            && LeBytes(low, 4) + LeBytes(high, 4) == LengthBytes(BitLength(m), false)
            && BeBytes(high, 4) + BeBytes(low, 4) == LengthBytes(BitLength(m), true)
  {
    LengthIsField(m, length);
    HalvesAdd(length);
    PairIsLength(length * 8 % TWO32, length / 0x2000_0000 % TWO32, BitLength(m));
  }

  lemma PairIsLength(low: Word, high: Word, n: nat)
    requires high * TWO32 + low == n
    ensures LeBytes(low, 4) + LeBytes(high, 4) == LengthBytes(n, false)
    ensures BeBytes(high, 4) + BeBytes(low, 4) == LengthBytes(n, true)
  {
    LeBytesOfPair(low, high);
    BeBytesOfPair(low, high);
  }

  predicate HasBytes(x: bv32, a: bv8, b: bv8, c: bv8, d: bv8) {
    ByteOf(x, 0) == a && ByteOf(x, 8) == b && ByteOf(x, 16) == c && ByteOf(x, 24) == d
  }

  lemma MarkFirst(a: bv8, b: bv8, c: bv8, d: bv8)
    ensures HasBytes(MaskAndMark(Join(a, b, c, d), 0), 0x80, 0, 0, 0)
  {
  }

  lemma MarkSecond(a: bv8, b: bv8, c: bv8, d: bv8)
    ensures HasBytes(MaskAndMark(Join(a, b, c, d), 8), a, 0x80, 0, 0)
  {
  }

  lemma MarkThird(a: bv8, b: bv8, c: bv8, d: bv8)
    ensures HasBytes(MaskAndMark(Join(a, b, c, d), 16), a, b, 0x80, 0)
  {
  }

  lemma MarkFourth(a: bv8, b: bv8, c: bv8, d: bv8)
    ensures HasBytes(MaskAndMark(Join(a, b, c, d), 24), a, b, c, 0x80)
  {
  }

  /** The byte as bits, reached by counting: successors are all the solver has to know about the conversions. */
  ghost function Counted(b: Byte): bv8 {
    if b == 0 then 0 else Counted(b - 1) + 1
  }

  lemma Successor(x: bv8)
    requires x != 255
    ensures (x + 1) as int == x as int + 1
  {
  }

  lemma {:induction false} CountedBack(b: Byte)
    ensures Counted(b) as int == b
  {
    if b > 0 {
      CountedBack(b - 1);
      Successor(Counted(b - 1));
    }
  }

  lemma BitsBack(x: bv8)
    ensures (x as int) as bv8 == x
  {
  }

  lemma ThereAndBack(b: Byte)
    ensures (b as bv8) as int == b
  {
    CountedBack(b);
    BitsBack(Counted(b));
    assert (Counted(b) as int) as bv8 == b as bv8;
  }

  lemma Stored(x: bv32, a: bv8, b: bv8, c: bv8, d: bv8)
    requires HasBytes(x, a, b, c, d)
    ensures Store(x) == [a as int, b as int, c as int, d as int]
  {
  }

  /** Masking and marking a word leaves `k` of its bytes, the marker and zeros in memory. */
  lemma MarkedWord(b: Bytes, k: nat)
    requires |b| == 4 && k < 4
    ensures Store(MaskAndMark(Load(b), Shift(k))) == b[..k] + [0x80] + Zeros(3 - k)
  {
    var p, q, r, s := b[0] as bv8, b[1] as bv8, b[2] as bv8, b[3] as bv8;
    var x := MaskAndMark(Load(b), Shift(k));
    ThereAndBack(b[0]);
    ThereAndBack(b[1]);
    ThereAndBack(b[2]);
    if k == 0 {
      MarkFirst(p, q, r, s);
      Stored(x, 0x80, 0, 0, 0);
    } else if k == 1 {
      MarkSecond(p, q, r, s);
      Stored(x, p, 0x80, 0, 0);
    } else if k == 2 {
      MarkThird(p, q, r, s);
      Stored(x, p, q, 0x80, 0);
    } else {
      MarkFourth(p, q, r, s);
      Stored(x, p, q, r, 0x80);
    }
  }

  /** The blocks to process for the buffered bytes and their marker, when the length takes eight bytes. */
  function Blocks(done: Bytes, front: Bytes, last: Bytes): Bytes
    requires |front| <= 64
  {
    if |front| <= 56 then done + (front + Zeros(56 - |front|) + last)
    else done + (front + Zeros(64 - |front|)) + (Zeros(56) + last)
  }

  lemma NarrowField(m: Bytes, bigEndian: bool)
    ensures LengthField(m, [], bigEndian) == LengthBytes(BitLength(m), bigEndian)
  {
  }

  lemma LastNarrowBlocks(done: Bytes, rest: Bytes, marker: Byte, bigEndian: bool)
    requires |done| % BLOCK == 0 && |rest| < BLOCK
    ensures Pad(done + rest, marker, LengthField(done + rest, [], bigEndian))
         == Blocks(done, rest + [marker], LengthBytes(BitLength(done + rest), bigEndian))
  {
    NarrowField(done + rest, bigEndian);
    NarrowBlocks(done, rest, marker, LengthBytes(BitLength(done + rest), bigEndian));
  }

  lemma NarrowBlocks(done: Bytes, rest: Bytes, marker: Byte, last: Bytes)
    requires |done| % BLOCK == 0 && |rest| < BLOCK && |last| == 8
    ensures Pad(done + rest, marker, last) == Blocks(done, rest + [marker], last)
  {
    LastBlocks(done, rest, marker, last);
  }

  /** Twenty-four of the zeros count as length bytes. */
  lemma WideLast(done: Bytes, front: Bytes, last: Bytes)
    requires |front| <= 64
    ensures |front| <= 32 ==>
              done + (front + Zeros(56 - |front|) + last) == done + (front + Zeros(32 - |front|) + (Zeros(24) + last))
    ensures done + (front + Zeros(64 - |front|)) + (Zeros(56) + last)
         == done + (front + Zeros(64 - |front|)) + (Zeros(32) + (Zeros(24) + last))
  {
    assert Zeros(32) + (Zeros(24) + last) == Zeros(56) + last;
    if |front| <= 32 {
      assert front + Zeros(32 - |front|) + (Zeros(24) + last) == front + Zeros(56 - |front|) + last;
    }
  }

  /** Filling up to a word boundary first does not matter. */
  lemma WordBlocks(done: Bytes, front: Bytes, words: Bytes, last: Bytes, from: nat)
    requires |front| <= |words| < |front| + 4 && |words| == 4 * from <= 64
    requires words == front + Zeros(|words| - |front|)
    ensures from <= 14 ==> done + (words + Zeros(56 - |words|) + last) == Blocks(done, front, last)
    ensures from > 14 ==> done + (words + Zeros(64 - |words|)) + (Zeros(56) + last) == Blocks(done, front, last)
  {
    if from <= 14 {
      assert words + Zeros(56 - |words|) == front + Zeros(56 - |front|);
    } else {
      assert words + Zeros(64 - |words|) == front + Zeros(64 - |front|);
    }
  }

  lemma LengthIsField(m: Bytes, length: nat)
    requires length == |m| % TWO64
    ensures length * 8 % TWO64 == BitLength(m)
  {
    CounterTimesEight(|m|);
  }

  lemma IndexIsRest(done: Bytes, rest: Bytes)
    requires |done| % BLOCK == 0 && |rest| < BLOCK
    ensures |done + rest| % TWO64 % 64 == |rest|
  {
    var n := |done + rest|;
    assert n % TWO64 == n - TWO64 * (n / TWO64) && TWO64 == 64 * 0x400_0000_0000_0000;
    assert n == 64 * (|done| / 64) + |rest|;
  }

  lemma LengthsAdd(m: Bytes, msg: Bytes)
    ensures (|m| % TWO64 + |msg|) % TWO64 == |m + msg| % TWO64
  {
    CounterAdds(|m|, |msg|);
  }

  datatype Kind = Md5 | Sha1 | Tiger | Tiger2 | Whirlpool

  function Padded(kind: Kind, m: Bytes): (r: Bytes)
    ensures |r| % BLOCK == 0
  {
    match kind
    case Md5 => LittlePadded(m, 0x80)
    case Sha1 => BigPadded(m)
    case Tiger => LittlePadded(m, 0x01)
    case Tiger2 => LittlePadded(m, 0x80)
    case Whirlpool => WidePadded(m)
  }

  /**
   * Any number of updates with chunks of any size and alignment, then the final call: the result is the
   * block function folded over the padded message, and does not depend on how the message was cut up.
   */
  method HashChunks<S(0)>(kind: Kind, transform: BlockFunction<S>, iv: S, chunks: seq<(Bytes, bool)>)
    returns (result: S)
    ensures result == Absorb(transform, iv, Padded(kind, Flatten(Chunks(chunks))))
  {
    var context := new Context(transform, iv);
    var i := 0;
    while i < |chunks|
      invariant 0 <= i <= |chunks| && context.Valid() && context.transform == transform && context.iv == iv
      invariant fresh(context) && fresh(context.message) && context.Msg() == Flatten(Chunks(chunks[..i]))
    {
      ghost var cs := Chunks(chunks[..i + 1]);
      assert cs[..i] == Chunks(chunks[..i]);
      context.Update(chunks[i].0, chunks[i].1);
      i := i + 1;
    }
    assert chunks[..i] == chunks;
    match kind
    case Md5 => result := context.Md5Final();
    case Sha1 => result := context.Sha1Final();
    case Tiger => result := context.TigerFinal(false);
    case Tiger2 => result := context.TigerFinal(true);
    case Whirlpool => result := context.WhirlpoolFinal();
  }

  /** The bytes of each chunk, without its alignment. */
  function Chunks(chunks: seq<(Bytes, bool)>): (r: seq<Bytes>)
    ensures |r| == |chunks|
  {
    seq(|chunks|, i requires 0 <= i < |chunks| => chunks[i].0)
  }

  /** What each of the four reserves for the length, where it puts the length, and in which byte order. */
  lemma PaddedLayout(kind: Kind, m: Bytes)
    ensures PaddedAs(Padded(kind, m), m, if kind == Tiger then 0x01 else 0x80, if kind == Whirlpool then 32 else 8,
                     if kind == Sha1 || kind == Whirlpool then BeBytes(BitLength(m), 8) else LeBytes(BitLength(m), 8))
  {
    NoZeros();
    match kind
    case Md5 => PadLayout(m, 0x80, 0, false);
    case Sha1 => PadLayout(m, 0x80, 0, true);
    case Tiger => PadLayout(m, 0x01, 0, false);
    case Tiger2 => PadLayout(m, 0x80, 0, false);
    case Whirlpool => PadLayout(m, 0x80, 24, true);
  }

  lemma NoZeros()
    ensures Zeros(0) == []
  {
  }

  lemma LittlePaddedLayout(m: Bytes, marker: Byte)
    ensures PaddedAs(LittlePadded(m, marker), m, marker, 8, LeBytes(BitLength(m), 8))
  {
    NoZeros();
    PadLayout(m, marker, 0, false);
  }

  /** Each padding is reversible: two messages below 2^61 bytes are never padded to the same blocks. */
  lemma PaddedIsInjective(kind: Kind, m: Bytes, n: Bytes)
    requires |m| < TWO64 / 8 && |n| < TWO64 / 8 && Padded(kind, m) == Padded(kind, n)
    ensures m == n
  {
    match kind
    case Md5 => PadIsInjective(m, n, 0x80, [], false);
    case Sha1 => PadIsInjective(m, n, 0x80, [], true);
    case Tiger => PadIsInjective(m, n, 0x01, [], false);
    case Tiger2 => PadIsInjective(m, n, 0x80, [], false);
    case Whirlpool => PadIsInjective(m, n, 0x80, Zeros(24), true);
  }
}
