/**
 * byte_order.c: copies that turn the bytes of every word around, word by word where everything is aligned and
 * byte by byte otherwise.  A word is the bytes it has in memory, so exchanging its byte order reverses it.
 */
module ByteOrder {
  import opened Octets

  /** Bytes in a word: 4 or 8 */
  type Width = w: nat | w == 4 || w == 8 witness 4

  /** index ^ 3, index ^ 7: within its word the place counted from the other end. */
  function Swap(w: Width, i: nat): (r: nat)
    ensures r / w == i / w && r % w == w - 1 - i % w
  {
    if w == 4 then i - i % 4 + (3 - i % 4) else i - i % 8 + (7 - i % 8)
  }

  /** The end of the word that the byte before `n` is in. */
  function RoundUp(w: Width, n: nat): (r: nat)
    ensures n <= r < n + w
  {
    if w == 4 then (n + 3) / 4 * 4 else (n + 7) / 8 * 8
  }

  lemma SwapFacts(w: Width, i: nat, n: nat)
    ensures Swap(w, Swap(w, i)) == i
    ensures i < n ==> Swap(w, i) < RoundUp(w, n)
  {
    if w == 4 {
    } else {
    }
  }

  /** What a copy of `from` to `index` makes of the destination. */
  function Copied(w: Width, to: Bytes, index: nat, from: Bytes): (r: Bytes)
    ensures |r| == |to|
  {
    seq(|to|, i requires 0 <= i < |to| =>
      if index <= Swap(w, i) < index + |from| then from[Swap(w, i) - index] else to[i])
  }

  /** What is read back from the start. */
  function ReadBack(w: Width, mem: Bytes, length: nat): (r: Bytes)
    requires RoundUp(w, length) <= |mem|
    ensures |r| == length
  {
    seq(length, k requires 0 <= k < length => SwapFacts(w, k, length); mem[Swap(w, k)])
  }

  /** Every byte that is copied lands in its own word, as far from the word's end as it was from its start. */
  lemma WordsAreTurned(w: Width, to: Bytes, index: nat, from: Bytes, k: nat)
    requires k < |from| && RoundUp(w, index + |from|) <= |to|
    ensures var at := index + k;
            var turned := at / w * w + (w - 1 - at % w);
            turned < |to| && Copied(w, to, index, from)[turned] == from[k]
  {
    SwapFacts(w, index + k, index + |from|);
    TurnedIsSwap(w, index + k);
  }

  lemma TurnedIsSwap(w: Width, i: nat)
    ensures i / w * w + (w - 1 - i % w) == Swap(w, i)
  {
  }

  /** Copying two pieces one behind the other is copying them together. */
  lemma CopyConcat(w: Width, to: Bytes, index: nat, a: Bytes, b: Bytes)
    ensures Copied(w, Copied(w, to, index, a), index + |a|, b) == Copied(w, to, index, a + b)
  {
  }

  /** Reading back undoes copying, for every length and whatever the word-rounded buffer held. */
  lemma ReadBackUndoesCopy(w: Width, to: Bytes, from: Bytes)
    requires RoundUp(w, |from|) <= |to|
    ensures ReadBack(w, Copied(w, to, 0, from), |from|) == from
  {
    var mem := Copied(w, to, 0, from);
    forall k | 0 <= k < |from|
      ensures ReadBack(w, mem, |from|)[k] == from[k]
    {
      SwapFacts(w, k, |from|);
    }
  }

  lemma OtherWords4(i: nat, n: nat)
    ensures i / 4 < n / 4 ==> Swap(4, i) < n
    ensures i >= (n + 3) / 4 * 4 ==> Swap(4, i) >= n
  {
  }

  lemma OtherWords8(i: nat, n: nat)
    ensures i / 8 < n / 8 ==> Swap(8, i) < n
    ensures i >= (n + 7) / 8 * 8 ==> Swap(8, i) >= n
  {
  }

  lemma OtherWords(w: Width, i: nat, n: nat)
    ensures i / w < n / w ==> Swap(w, i) < n
    ensures i >= RoundUp(w, n) ==> Swap(w, i) >= n
  {
    if w == 4 {
      OtherWords4(i, n);
    } else {
      OtherWords8(i, n);
    }
  }

  /** Only the words the copy reaches change. */
  lemma CopyStaysInItsWords(w: Width, to: Bytes, index: nat, from: Bytes, i: nat)
    requires i < |to| && (i / w < index / w || i >= RoundUp(w, index + |from|))
    ensures Copied(w, to, index, from)[i] == to[i]
  {
    OtherWords(w, i, index);
    OtherWords(w, i, index + |from|);
  }

  /** bswap_32, bswap_64 */
  function Reversed(word: Bytes): (r: Bytes)
    ensures |r| == |word|
  {
    seq(|word|, i requires 0 <= i < |word| => word[|word| - 1 - i])
  }

  /** The part of a copy that has been done after `n` bytes. */
  ghost predicate Done(w: Width, before: Bytes, index: nat, from: Bytes, n: nat, now: Bytes)
    requires n <= |from|
  {
    now == Copied(w, before, index, from[..n])
  }

  lemma OneByteMore(w: Width, before: Bytes, index: nat, from: Bytes, n: nat, now: Bytes)
    requires n < |from| && Done(w, before, index, from, n, now) && RoundUp(w, index + |from|) <= |before|
    ensures Swap(w, index + n) < |now|
    ensures Done(w, before, index, from, n + 1, now[Swap(w, index + n) := from[n]])
  {
    SwapFacts(w, index + n, index + |from|);
    var next := now[Swap(w, index + n) := from[n]];
    forall i | 0 <= i < |before|
      ensures next[i] == Copied(w, before, index, from[..n + 1])[i]
    {
      SwapFacts(w, i, index + |from|);
    }
    assert next == Copied(w, before, index, from[..n + 1]);
  }

  method CopyBytes(w: Width, to: array<Byte>, index: nat, from: array<Byte>, length: nat)
    requires to != from && length <= from.Length && RoundUp(w, index + length) <= to.Length
    modifies to
    ensures to[..] == Copied(w, old(to[..]), index, from[..length])
  {
    ghost var before := to[..];
    assert to[..] == Copied(w, before, index, from[..length][..0]);
    var n := 0;
    while n < length
      invariant n <= length && Done(w, before, index, from[..length], n, to[..])
    {
      OneByteMore(w, before, index, from[..length], n, to[..]);
      to[Swap(w, index + n)] := from[n];
      n := n + 1;
    }
    assert from[..length][..n] == from[..length];
  }

  lemma InWord(w: Width, at: nat, j: nat)
    requires at % w == 0 && j < w
    ensures (at + j) % w == j
  {
    if w == 4 {
    } else {
    }
  }

  lemma SwapInWord(w: Width, at: nat, j: nat)
    requires at % w == 0 && j < w
    ensures Swap(w, at + j) == at + (w - 1 - j)
  {
    InWord(w, at, j);
  }

  lemma WholeWords(w: Width, at: nat, i: nat)
    requires at % w == 0
    ensures i < at ==> i / w < at / w
    ensures RoundUp(w, at + w) == at + w
  {
    if w == 4 {
    } else {
    }
  }

  lemma SwapOutside(w: Width, at: nat, i: nat)
    requires at % w == 0 && (i < at || i >= at + w)
    ensures Swap(w, i) < at || Swap(w, i) >= at + w
  {
    WholeWords(w, at, i);
    OtherWords(w, i, at);
    OtherWords(w, i, at + w);
  }

  lemma ByteInWord(w: Width, before: Bytes, index: nat, from: Bytes, n: nat, i: nat)
    requires (index + n) % w == 0 && n + w <= |from| && index + n <= i < index + n + w && i < |before|
    ensures Copied(w, before, index, from[..n + w])[i] == Reversed(from[n..n + w])[i - (index + n)]
  {
    SwapInWord(w, index + n, i - (index + n));
  }

  lemma ByteOutsideWord(w: Width, before: Bytes, index: nat, from: Bytes, n: nat, i: nat)
    requires (index + n) % w == 0 && n + w <= |from| && i < |before| && (i < index + n || i >= index + n + w)
    ensures Copied(w, before, index, from[..n + w])[i] == Copied(w, before, index, from[..n])[i]
  {
    SwapOutside(w, index + n, i);
  }

  lemma OneWordMore(w: Width, before: Bytes, index: nat, from: Bytes, n: nat, now: Bytes, next: Bytes)
    requires (index + n) % w == 0 && n + w <= |from| && Done(w, before, index, from, n, now)
    requires index + |from| <= |before| == |next|
    requires next[index + n..index + n + w] == Reversed(from[n..n + w])
    requires next[..index + n] == now[..index + n] && next[index + n + w..] == now[index + n + w..]
    ensures Done(w, before, index, from, n + w, next)
  {
    var at := index + n;
    forall i | 0 <= i < |before|
      ensures next[i] == Copied(w, before, index, from[..n + w])[i]
    {
      if at <= i < at + w {
        ByteInWord(w, before, index, from, n, i);
        assert next[i] == next[at..at + w][i - at];
      } else {
        ByteOutsideWord(w, before, index, from, n, i);
        if i < at {
          assert next[i] == next[..at][i] == now[..at][i];
        } else {
          assert next[i] == next[at + w..][i - at - w] == now[at + w..][i - at - w];
        }
      }
    }
  }

  lemma WordsAdd(w: Width, a: nat, b: nat)
    requires a % w == 0 && b % w == 0
    ensures (a + b) % w == 0 && RoundUp(w, a) == a
    ensures a < b ==> a + w <= b
  {
    if w == 4 {
    } else {
    }
  }

  method CopyWords(w: Width, to: array<Byte>, index: nat, from: array<Byte>, length: nat)
    requires to != from && length <= from.Length && RoundUp(w, index + length) <= to.Length
    requires index % w == 0 && length % w == 0
    modifies to
    ensures to[..] == Copied(w, old(to[..]), index, from[..length])
  {
    ghost var before := to[..];
    assert to[..] == Copied(w, before, index, from[..length][..0]);
    var n := 0;
    while n < length
      invariant n <= length && n % w == 0 && Done(w, before, index, from[..length], n, to[..])
    {
      CopyWord(w, to, index, from, length, n, before);
      WordsAdd(w, n, length);
      WordsAdd(w, n, w);
      n := n + w;
    }
    assert from[..length][..n] == from[..length];
  }

  method CopyWord(w: Width, to: array<Byte>, index: nat, from: array<Byte>, length: nat, n: nat, ghost before: Bytes)
    requires to != from && length <= from.Length && RoundUp(w, index + length) <= to.Length
    requires index % w == 0 && length % w == 0 && n % w == 0 && n < length
    requires |before| == to.Length && Done(w, before, index, from[..length], n, to[..])
    modifies to
    ensures n + w <= length && Done(w, before, index, from[..length], n + w, to[..])
  {
    WordsAdd(w, n, length);
    WordsAdd(w, index, n);
    ghost var now := to[..];
    StoreWord(to, index + n, Reversed(from[n..n + w]));
    assert from[..length][n..n + w] == from[n..n + w];
    OneWordMore(w, before, index, from[..length], n, now, to[..]);
  }

  method StoreWord(to: array<Byte>, at: nat, word: Bytes)
    requires at + |word| <= to.Length
    modifies to
    ensures to[at..at + |word|] == word && to[..at] == old(to[..at]) && to[at + |word|..] == old(to[at + |word|..])
  {
    forall j | 0 <= j < |word| {
      to[at + j] := word[j];
    }
  }

  /**
   * rhash_swap_copy_str_to_u32 and _u64: `aligned` says whether both pointers are at word boundaries.  Both
   * branches do the same.
   */
  method CopyStrToWords(w: Width, to: array<Byte>, index: nat, from: array<Byte>, length: nat, aligned: bool)
    requires to != from && length <= from.Length && RoundUp(w, index + length) <= to.Length
    modifies to
    ensures to[..] == Copied(w, old(to[..]), index, from[..length])
  {
    if aligned && index % w == 0 && length % w == 0 {
      CopyWords(w, to, index, from, length);
    } else {
      CopyBytes(w, to, index, from, length);
    }
  }

  lemma ReadIsCopy(w: Width, to: Bytes, mem: Bytes)
    requires |mem| % w == 0 && |mem| <= |to|
    ensures RoundUp(w, |mem|) == |mem| && Copied(w, to, 0, mem) == ReadBack(w, mem, |mem|) + to[|mem|..]
  {
    WordsAdd(w, |mem|, 0);
    forall i | 0 <= i < |to|
      ensures Copied(w, to, 0, mem)[i] == (ReadBack(w, mem, |mem|) + to[|mem|..])[i]
    {
      SwapFacts(w, i, |mem|);
      OtherWords(w, i, |mem|);
    }
  }

  lemma ReadBackOfPrefix(w: Width, mem: Bytes, length: nat)
    requires length % w == 0 && length <= |mem|
    ensures RoundUp(w, length) == length && ReadBack(w, mem[..length], length) == ReadBack(w, mem, length)
  {
    WordsAdd(w, length, 0);
    forall k | 0 <= k < length
      ensures ReadBack(w, mem[..length], length)[k] == ReadBack(w, mem, length)[k]
    {
      SwapFacts(w, k, length);
    }
  }

  method ReadBytes(w: Width, to: array<Byte>, from: array<Byte>, length: nat)
    requires to != from && length <= to.Length && RoundUp(w, length) <= from.Length
    modifies to
    ensures to[..] == ReadBack(w, from[..], length) + old(to[length..])
  {
    var index := 0;
    while index < length
      invariant index <= length && to[..index] == ReadBack(w, from[..], length)[..index]
      invariant to[length..] == old(to[length..])
    {
      SwapFacts(w, index, length);
      to[index] := from[Swap(w, index)];
      index := index + 1;
    }
    assert to[..] == to[..length] + to[length..];
  }

  /** rhash_swap_copy_u64_to_str, for either width: both branches do the same. */
  method CopyWordsToStr(w: Width, to: array<Byte>, from: array<Byte>, length: nat, aligned: bool)
    requires to != from && length <= to.Length && RoundUp(w, length) <= from.Length
    modifies to
    ensures to[..] == ReadBack(w, from[..], length) + old(to[length..])
  {
    if aligned && length % w == 0 {
      ghost var before := to[..];
      WordsAdd(w, length, 0);
      CopyWords(w, to, 0, from, length);
      ReadIsCopy(w, before, from[..length]);
      ReadBackOfPrefix(w, from[..], length);
      assert from[..][..length] == from[..length];
    } else {
      ReadBytes(w, to, from, length);
    }
  }
}
