/** rjripemd128.c: its own update and finish, the latter on a copy of the context. */
module Ripemd {
  import opened Octets
  import opened MerkleDamgard
  import Rhash

  /** ampheck_ripemd128_transform: `blocks` blocks of the data, one after the other. */
  method Transform<S>(f: BlockFunction<S>, iv: S, h: S, data: Bytes, blocks: nat, ghost done: Bytes) returns (r: S)
    requires 64 * blocks <= |data| && |done| % BLOCK == 0 && h == Absorb(f, iv, done)
    ensures |done + data[..64 * blocks]| % BLOCK == 0
    ensures r == Absorb(f, iv, done + data[..64 * blocks])
  {
    r := h;
    var i := 0;
    assert done + data[..0] == done;
    while i < blocks
      invariant 0 <= i <= blocks && |done + data[..64 * i]| % BLOCK == 0
      invariant r == Absorb(f, iv, done + data[..64 * i])
    {
      var block := data[64 * i..64 * i + 64];
      AbsorbBlock(f, iv, done + data[..64 * i], block);
      NextBlock(done, data, 64 * i);
      r := f(r, block);
      i := i + 1;
    }
  }

  class Context<S(0)> {
    const transform: BlockFunction<S>
    const iv: S
    var h: S
    const buffer: array<Byte>
    var length: nat
    ghost var done: Bytes
    ghost var rest: Bytes

    ghost function Msg(): Bytes
      reads this
    {
      done + rest
    }

    ghost predicate Valid()
      reads this, buffer
    {
      && buffer.Length == BLOCK
      && |done| % BLOCK == 0 && |rest| < BLOCK
      && length == |done + rest| % TWO64
      && h == Absorb(transform, iv, done)
      && buffer[..|rest|] == rest
    }

    constructor (transform: BlockFunction<S>, iv: S)
      ensures Valid() && Msg() == [] && this.transform == transform && this.iv == iv && fresh(buffer)
    {
      this.transform, this.iv := transform, iv;
      h, length, done, rest := iv, 0, [], [];
      buffer := new Byte[BLOCK];
    }

    method Copy(index: nat, data: Bytes)
      requires index + |data| <= buffer.Length
      modifies buffer
      ensures buffer[..index + |data|] == old(buffer[..index]) + data
    {
      forall k | 0 <= k < |data| {
        buffer[index + k] := data[k];
      }
    }

    /** Fill the buffer and process it. */
    method TopUp(index: nat, head: Bytes)
      requires buffer.Length == BLOCK && |done| % BLOCK == 0 && h == Absorb(transform, iv, done)
      requires index == |rest| && index + |head| == BLOCK && buffer[..index] == rest
      modifies this`h, this`done, buffer
      ensures |done| % BLOCK == 0 && h == Absorb(transform, iv, done) && done == old(done) + (rest + head)
    {
      Copy(index, head);
      assert buffer[..][..64] == buffer[..];
      h := Transform(transform, iv, h, buffer[..], 1, done);
      done := done + buffer[..];
    }

    /** ampheck_ripemd128_update */
    method Update(chunk: Bytes)
      requires Valid()
      modifies this, buffer
      ensures Valid() && Msg() == old(Msg()) + chunk
    {
      var index := Position();
      AddLength(chunk);
      if |chunk| >= 64 - index {
        FillAndFeed(chunk, index);
      } else {
        Assoc(done, rest, chunk);
        Copy(index, chunk);
        rest := rest + chunk;
      }
    }

    method Position() returns (index: nat)
      requires Valid()
      ensures index == |rest|
    {
      Rhash.IndexIsRest(done, rest);
      index := length % 64;
    }

    method AddLength(chunk: Bytes)
      requires Valid()
      modifies this`length
      ensures length == |done + rest + chunk| % TWO64
    {
      CounterAdds(|done + rest|, |chunk|);
      length := (length + |chunk|) % TWO64;
    }

    /** The first branch of an update: complete the block, process it and the whole blocks behind it. */
    method FillAndFeed(chunk: Bytes, index: nat)
      requires index == |rest| < 64 <= index + |chunk| && buffer.Length == BLOCK && buffer[..index] == rest
      requires |done| % BLOCK == 0 && h == Absorb(transform, iv, done)
      modifies this`h, this`done, this`rest, buffer
      ensures |done| % BLOCK == 0 && |rest| < BLOCK && h == Absorb(transform, iv, done)
      ensures buffer[..|rest|] == rest && done + rest == old(done) + old(rest) + chunk
    {
      Assoc(done, rest, chunk[..64 - index]);
      TopUp(index, chunk[..64 - index]);
      FeedAndKeepRest(chunk, 64 - index, old(Msg()));
    }

    /** The whole blocks of the data; `n` bytes are used. */
    method FeedWhole(data: Bytes) returns (n: nat)
      requires |done| % BLOCK == 0 && h == Absorb(transform, iv, done)
      modifies this`h, this`done
      ensures n <= |data| < n + 64 && done == old(done) + data[..n]
      ensures |done| % BLOCK == 0 && h == Absorb(transform, iv, done)
    {
      var whole := |data| / 64;
      n := 64 * whole;
      h := Transform(transform, iv, h, data, whole, done);
      done := done + data[..n];
    }

    /** The rest of the first branch: whole blocks from `first` on, then the leftovers. */
    method FeedAndKeepRest(chunk: Bytes, first: nat, ghost before: Bytes)
      requires first <= |chunk| && done == before + chunk[..first]
      requires buffer.Length == BLOCK && |done| % BLOCK == 0 && h == Absorb(transform, iv, done)
      modifies this`h, this`done, this`rest, buffer
      ensures |done| % BLOCK == 0 && |rest| < BLOCK && h == Absorb(transform, iv, done)
      ensures buffer[..|rest|] == rest && done + rest == before + chunk
    {
      var data := chunk[first..];
      var n := FeedWhole(data);
      WholeAndLeft(before, chunk, first, n);
      KeepRest(data[n..]);
    }

    method KeepRest(left: Bytes)
      requires |left| < BLOCK == buffer.Length
      modifies this`rest, buffer
      ensures rest == left && buffer[..|rest|] == rest
    {
      Copy(0, left);
      rest := left;
    }

    /** ampheck_ripemd128_finish: the padding is applied to a copy, the context itself stays as it is. */
    method Finish() returns (result: S)
      requires Valid()
      ensures result == Absorb(transform, iv, Rhash.LittlePadded(Msg(), 0x80))
    {
      Rhash.IndexIsRest(done, rest);
      Rhash.LastNarrowBlocks(done, rest, 0x80, false);
      Rhash.LengthIsField(done + rest, length);
      var index := length % 64;
      var bits := LeBytes(length * 8 % TWO64, 8);
      var copy := buffer[..index] + [0x80];
      result := h;
      ghost var fed := done;
      if index < 56 {
        copy := copy + Zeros(55 - index);
      } else {
        copy := copy + Zeros(63 - index);
        AbsorbBlock(transform, iv, fed, copy);
        result := transform(result, copy);
        fed := fed + copy;
        copy := Zeros(56);
      }
      copy := copy + bits;
      AbsorbBlock(transform, iv, fed, copy);
      result := transform(result, copy);
    }
  }

  lemma WholeAndLeft(before: Bytes, chunk: Bytes, first: nat, n: nat)
    requires first + n <= |chunk|
    ensures var data := chunk[first..]; before + chunk[..first] + data[..n] + data[n..] == before + chunk
  {
    var data := chunk[first..];
    assert data[..n] + data[n..] == data && chunk[..first] + data == chunk;
    Assoc(before + chunk[..first], data[..n], data[n..]);
    Assoc(before, chunk[..first], data);
  }

  /** The i-th digest is that of the first i chunks. */
  ghost predicate EarlyDigests<S>(transform: BlockFunction<S>, iv: S, chunks: seq<Bytes>, early: seq<S>) {
    |early| <= |chunks| &&
    forall k :: 0 <= k < |early| ==> early[k] == Absorb(transform, iv, Rhash.LittlePadded(Flatten(chunks[..k]), 0x80))
  }

  lemma OneDigestMore<S>(transform: BlockFunction<S>, iv: S, chunks: seq<Bytes>, early: seq<S>, digest: S)
    requires EarlyDigests(transform, iv, chunks, early) && |early| < |chunks|
    requires digest == Absorb(transform, iv, Rhash.LittlePadded(Flatten(chunks[..|early|]), 0x80))
    ensures EarlyDigests(transform, iv, chunks, early + [digest])
  {
  }

  lemma FlattenNext(chunks: seq<Bytes>, i: nat)
    requires i < |chunks|
    ensures Flatten(chunks[..i + 1]) == Flatten(chunks[..i]) + chunks[i]
  {
    assert chunks[..i + 1][..i] == chunks[..i];
  }

  /** Any chunking, any number of intermediate digests: each digest is that of the bytes fed in so far. */
  method HashChunks<S(0)>(transform: BlockFunction<S>, iv: S, chunks: seq<Bytes>) returns (early: seq<S>, result: S)
    ensures |early| == |chunks| && EarlyDigests(transform, iv, chunks, early)
    ensures result == Absorb(transform, iv, Rhash.LittlePadded(Flatten(chunks), 0x80))
  {
    var context := new Context(transform, iv);
    early := [];
    var i := 0;
    while i < |chunks|
      invariant 0 <= i <= |chunks| && context.Valid() && context.transform == transform && context.iv == iv
      invariant fresh(context) && fresh(context.buffer) && context.Msg() == Flatten(chunks[..i])
      invariant |early| == i && EarlyDigests(transform, iv, chunks, early)
    {
      FlattenNext(chunks, i);
      var digest := context.Finish();
      OneDigestMore(transform, iv, chunks, early, digest);
      early := early + [digest];
      context.Update(chunks[i]);
      i := i + 1;
    }
    assert chunks[..i] == chunks;
    result := context.Finish();
  }

  /** The padding of ampheck_ripemd128_finish: the marker 0x80 and the little-endian bit length. */
  lemma PaddedLayout(m: Bytes)
    ensures PaddedAs(Rhash.LittlePadded(m, 0x80), m, 0x80, 8, LeBytes(BitLength(m), 8))
  {
    Rhash.LittlePaddedLayout(m, 0x80);
  }
}
