/**
 * util/gbconv.c: GBK text to UTF-8 through a table of 0x6000 code points that is left open, and a reader of
 * UTF-8 (section 3 of RFC 3629, up to three bytes) that says what the output means.
 */
module Gbconv {

  datatype Option<T> = None | Some(value: T)

  type Table = bv16 --> bv16

  /** A table that has its 0x6000 entries. */
  ghost predicate Complete(table: Table) {
    forall i :: i < 0x6000 ==> table.requires(i)
  }

  /** A byte as a signed char, widened to 16 bits. */
  function SignExtend(b: bv8): bv16 {
    if b & 0x80 != 0 then (b as bv16) | 0xff00 else b as bv16
  }

  /** gbk_to_index: the shifts are of an int, so bits above the masks do not come back. */
  function GbkToIndex(byte1: bv8, byte2: bv8): bv16 {
    if byte2 & 0xC0 == 0x40 then
      ((SignExtend(byte2) & 0x3F) | ((SignExtend(byte1) << 6) & 0x3FC0)) - 0x2000
    else
      ((SignExtend(byte2) & 0x7F) | ((SignExtend(byte1) << 7) & 0x7F80)) - 0x2000
  }

  /** After a lead byte every index is inside the table, and no two pairs with bit 7 or 6 of byte 2 set share one. */
  lemma IndexInTable(byte1: bv8, byte2: bv8)
    requires byte1 & 0x80 != 0
    ensures GbkToIndex(byte1, byte2) < 0x6000
  {
  }

  lemma IndexIsInjective(a1: bv8, a2: bv8, b1: bv8, b2: bv8)
    requires a1 & 0x80 != 0 && b1 & 0x80 != 0 && a2 & 0xC0 != 0 && b2 & 0xC0 != 0
    requires GbkToIndex(a1, a2) == GbkToIndex(b1, b2)
    ensures a1 == b1 && a2 == b2
  {
  }

  // ---- What is converted ----

  /** The code points of the first `n` bytes from `i` on; an index past `n` may only be the second byte of a pair. */
  function CodePoints(table: Table, src: seq<bv8>, n: nat, i: nat): seq<bv16>
    requires Complete(table) && n < |src|
    decreases n - i
  {
    if i >= n || src[i] == 0 then []
    else if src[i] & 0x80 == 0 then [src[i] as bv16] + CodePoints(table, src, n, i + 1)
    else if src[i + 1] == 0 then [0x3F]
    else if src[i + 1] & 0x7F == 0x7F then [0x3F] + CodePoints(table, src, n, i + 2)
    else [Lookup(table, src[i], src[i + 1])] + CodePoints(table, src, n, i + 2)
  }

  function Lookup(table: Table, byte1: bv8, byte2: bv8): bv16
    requires Complete(table) && byte1 & 0x80 != 0
  {
    IndexInTable(byte1, byte2);
    var unicode := table(GbkToIndex(byte1, byte2));
    if unicode == 0 then 0x3F else unicode
  }

  // ---- The table's rows ----

  /** Second bytes 0x40 to 0x7F: rows of 64 from the start of the table, one for each lead byte from 0x80 on. */
  lemma NarrowRows(byte1: bv8, byte2: bv8)
    requires byte1 >= 0x80 && 0x40 <= byte2 < 0x80
    ensures GbkToIndex(byte1, byte2) == (((byte1 - 0x80) as bv16) << 6) + ((byte2 - 0x40) as bv16)
  {
  }

  /** Second bytes 0x80 to 0xFF: rows of 128 behind those. */
  lemma WideRows(byte1: bv8, byte2: bv8)
    requires byte1 >= 0x80 && byte2 >= 0x80
    ensures GbkToIndex(byte1, byte2) == 0x2000 + (((byte1 - 0x80) as bv16) << 7) + ((byte2 - 0x80) as bv16)
  {
  }

  /** A second byte below 0x40 is read as if its top bit were set. */
  lemma LowSecondByte(byte1: bv8, byte2: bv8)
    requires byte1 >= 0x80 && byte2 < 0x40
    ensures GbkToIndex(byte1, byte2) == GbkToIndex(byte1, byte2 + 0x80)
  {
  }

  /** A character of well-formed GBK text */
  datatype Character = Ascii(b: bv8) | Pair(byte1: bv8, byte2: bv8)

  predicate WellFormed(c: Character) {
    match c
    case Ascii(b) => 0 < b < 0x80
    case Pair(byte1, byte2) => byte1 >= 0x80 && byte2 >= 0x40
  }

  function TextBytes(text: seq<Character>): seq<bv8> {
    if text == [] then []
    else (match text[0] case Ascii(b) => [b] case Pair(byte1, byte2) => [byte1, byte2]) + TextBytes(text[1..])
  }

  /** Where the table has the character: its row and column. */
  function Place(byte1: bv8, byte2: bv8): bv16
    requires byte1 >= 0x80 && byte2 >= 0x40
  {
    if byte2 < 0x80 then 64 * ((byte1 - 0x80) as bv16) + ((byte2 - 0x40) as bv16)
    else 0x2000 + 128 * ((byte1 - 0x80) as bv16) + ((byte2 - 0x80) as bv16)
  }

  lemma PlaceIsIndex(byte1: bv8, byte2: bv8)
    requires byte1 >= 0x80 && byte2 >= 0x40
    ensures Place(byte1, byte2) == GbkToIndex(byte1, byte2) < 0x6000
  {
  }

  /** What is printed for a character: itself, its entry, or a question mark if it has none. */
  function Meaning(table: Table, c: Character): bv16
    requires Complete(table) && WellFormed(c)
  {
    match c
    case Ascii(b) => b as bv16
    case Pair(byte1, byte2) =>
      PlaceIsIndex(byte1, byte2);
      if byte2 == 0x7F || byte2 == 0xFF || table(Place(byte1, byte2)) == 0 then 0x3F else table(Place(byte1, byte2))
  }

  predicate AllWellFormed(text: seq<Character>) {
    forall i :: 0 <= i < |text| ==> WellFormed(text[i])
  }

  function Meanings(table: Table, text: seq<Character>): seq<bv16>
    requires Complete(table) && AllWellFormed(text)
  {
    if text == [] then [] else [Meaning(table, text[0])] + Meanings(table, text[1..])
  }

  lemma ConvertAscii(table: Table, src: seq<bv8>, n: nat, i: nat, b: bv8, more: seq<bv8>)
    requires Complete(table) && 0 < b < 0x80 && i <= n < |src| && src[i..n] == [b] + more
    ensures i + 1 <= n && src[i + 1..n] == more
    ensures CodePoints(table, src, n, i) == [b as bv16] + CodePoints(table, src, n, i + 1)
  {
    var s := src[i..n];
    assert s[0] == b && src[i] == b;
    LowBits(b);
    assert src[i + 1..n] == s[1..] == more;
  }

  lemma ConvertPairOf(table: Table, src: seq<bv8>, n: nat, i: nat, byte1: bv8, byte2: bv8, more: seq<bv8>)
    requires Complete(table) && WellFormed(Pair(byte1, byte2)) && i <= n < |src| && src[i..n] == [byte1, byte2] + more
    ensures i + 2 <= n && src[i + 2..n] == more
    ensures CodePoints(table, src, n, i) == [Meaning(table, Pair(byte1, byte2))] + CodePoints(table, src, n, i + 2)
  {
    var s := src[i..n];
    assert s[0] == byte1 && s[1] == byte2 && src[i] == byte1 && src[i + 1] == byte2;
    HighBits(byte1, byte2);
    PlaceIsIndex(byte1, byte2);
    assert src[i + 2..n] == s[2..] == more;
  }

  lemma BytesOfOne(c: Character)
    ensures TextBytes([c]) == match c case Ascii(b) => [b] case Pair(byte1, byte2) => [byte1, byte2]
  {
    assert [c][1..] == [];
  }

  lemma ConvertFirst(table: Table, src: seq<bv8>, n: nat, i: nat, c: Character, more: seq<bv8>) returns (next: nat)
    requires Complete(table) && WellFormed(c) && i <= n < |src| && src[i..n] == TextBytes([c]) + more
    ensures i < next <= n && src[next..n] == more
    ensures CodePoints(table, src, n, i) == [Meaning(table, c)] + CodePoints(table, src, n, next)
  {
    BytesOfOne(c);
    match c
    case Ascii(b) =>
      next := i + 1;
      ConvertAscii(table, src, n, i, b, more);
    case Pair(byte1, byte2) =>
      next := i + 2;
      ConvertPairOf(table, src, n, i, byte1, byte2, more);
  }

  lemma LowBits(b: bv8)
    requires b < 0x80
    ensures b & 0x80 == 0
  {
  }

  lemma HighBits(byte1: bv8, byte2: bv8)
    requires byte1 >= 0x80 && byte2 >= 0x40
    ensures byte1 & 0x80 != 0 && (byte2 & 0x7F == 0x7F <==> byte2 == 0x7F || byte2 == 0xFF)
  {
  }

  lemma TextSplits(text: seq<Character>)
    requires text != []
    ensures TextBytes(text) == TextBytes([text[0]]) + TextBytes(text[1..])
  {
    assert [text[0]][1..] == [];
  }

  /** The code points of well-formed text are those its rows and columns of the table hold, character by character. */
  lemma {:induction false} TextConverts(table: Table, text: seq<Character>, src: seq<bv8>, n: nat, i: nat)
    requires Complete(table) && AllWellFormed(text) && i <= n < |src| && src[i..n] == TextBytes(text)
    ensures CodePoints(table, src, n, i) == Meanings(table, text)
    decreases |text|
  {
    if text != [] {
      TextSplits(text);
      var next := ConvertFirst(table, src, n, i, text[0], TextBytes(text[1..]));
      TextConverts(table, text[1..], src, n, next);
    }
  }

  /** A lead byte in front of a NUL is printed as a question mark and ends the text. */
  lemma BrokenPair(table: Table, src: seq<bv8>, n: nat, i: nat)
    requires Complete(table) && i < n < |src| && src[i] & 0x80 != 0 && src[i + 1] == 0
    ensures CodePoints(table, src, n, i) == [0x3F]
  {
  }

  // ---- UTF-8 ----

  function Lead2(u: bv16): bv8 { ((0xC0 | ((u >> 6) & 0x1F)) & 0xFF) as bv8 }
  function Lead3(u: bv16): bv8 { ((0xE0 | ((u >> 12) & 0x0F)) & 0xFF) as bv8 }
  function Middle(u: bv16): bv8 { ((0x80 | ((u >> 6) & 0x3F)) & 0xFF) as bv8 }
  function Last(u: bv16): bv8 { ((0x80 | (u & 0x3F)) & 0xFF) as bv8 }
  function Low(u: bv16): bv8 { (u & 0xFF) as bv8 }

  function Utf8(u: bv16): (r: seq<bv8>)
    ensures 1 <= |r| <= 3
  {
    if u < 0x80 then [Low(u)] else if u <= 0x7FF then [Lead2(u), Last(u)] else [Lead3(u), Middle(u), Last(u)]
  }

  function Utf8All(us: seq<bv16>): seq<bv8> {
    if us == [] then [] else Utf8(us[0]) + Utf8All(us[1..])
  }

  predicate Surrogate(u: bv16) {
    0xD800 <= u <= 0xDFFF
  }

  predicate Continues(b: bv8) {
    b & 0xC0 == 0x80
  }

  function Join2(a: bv8, b: bv8): bv16 {
    (((a & 0x1F) as bv16) << 6) | ((b & 0x3F) as bv16)
  }

  function Join3(a: bv8, b: bv8, c: bv8): bv16 {
    (((a & 0x0F) as bv16) << 12) | (((b & 0x3F) as bv16) << 6) | ((c & 0x3F) as bv16)
  }

  function Prepend(u: bv16, rest: Option<seq<bv16>>): Option<seq<bv16>> {
    match rest
    case None => None
    case Some(us) => Some([u] + us)
  }

  predicate Two(a: bv8, b: bv8) {
    a & 0xE0 == 0xC0 && Continues(b) && Join2(a, b) >= 0x80
  }

  predicate Three(a: bv8, b: bv8, c: bv8) {
    a & 0xF0 == 0xE0 && Continues(b) && Continues(c) && Join3(a, b, c) >= 0x800 && !Surrogate(Join3(a, b, c))
  }

  /** Refuses what the RFC forbids: stray and missing continuation bytes, longer forms than needed, surrogates. */
  function Decode(s: seq<bv8>): Option<seq<bv16>> {
    if s == [] then Some([])
    else if s[0] < 0x80 then Prepend(s[0] as bv16, Decode(s[1..]))
    else if |s| >= 2 && Two(s[0], s[1]) then Prepend(Join2(s[0], s[1]), Decode(s[2..]))
    else if |s| >= 3 && Three(s[0], s[1], s[2]) then Prepend(Join3(s[0], s[1], s[2]), Decode(s[3..]))
    else None
  }

  lemma OneByte(u: bv16)
    requires u < 0x80
    ensures Low(u) < 0x80 && Low(u) as bv16 == u
  {
  }

  lemma TwoBytes(u: bv16)
    requires 0x80 <= u <= 0x7FF
    ensures !(Lead2(u) < 0x80) && Two(Lead2(u), Last(u)) && Join2(Lead2(u), Last(u)) == u
  {
  }

  lemma ThreeBytes(u: bv16)
    requires 0x800 <= u
    ensures !(Lead3(u) < 0x80) && !Two(Lead3(u), Middle(u))
    ensures Three(Lead3(u), Middle(u), Last(u)) == !Surrogate(u) && Join3(Lead3(u), Middle(u), Last(u)) == u
  {
  }

  lemma DecodeOne(a: bv8, rest: seq<bv8>, u: bv16)
    requires a < 0x80 && a as bv16 == u
    ensures Decode([a] + rest) == Prepend(u, Decode(rest))
  {
    assert ([a] + rest)[1..] == rest;
  }

  lemma DecodeTwo(a: bv8, b: bv8, rest: seq<bv8>, u: bv16)
    requires !(a < 0x80) && Two(a, b) && Join2(a, b) == u
    ensures Decode([a, b] + rest) == Prepend(u, Decode(rest))
  {
    assert ([a, b] + rest)[2..] == rest;
  }

  lemma DecodeThree(a: bv8, b: bv8, c: bv8, rest: seq<bv8>, u: bv16)
    requires !(a < 0x80) && !Two(a, b) && Join3(a, b, c) == u
    ensures Decode([a, b, c] + rest) == if Three(a, b, c) then Prepend(u, Decode(rest)) else None
  {
    assert ([a, b, c] + rest)[3..] == rest;
  }

  lemma DecodeUtf8(u: bv16, rest: seq<bv8>)
    ensures Decode(Utf8(u) + rest) == if Surrogate(u) then None else Prepend(u, Decode(rest))
  {
    if u < 0x80 {
      OneByte(u);
      DecodeOne(Low(u), rest, u);
    } else if u <= 0x7FF {
      TwoBytes(u);
      DecodeTwo(Lead2(u), Last(u), rest, u);
    } else {
      ThreeBytes(u);
      DecodeThree(Lead3(u), Middle(u), Last(u), rest, u);
    }
  }

  predicate NoSurrogates(us: seq<bv16>) {
    forall i :: 0 <= i < |us| ==> !Surrogate(us[i])
  }

  /** The reader gets the code points back exactly if none of them is a surrogate. */
  lemma {:induction false} Utf8RoundTrip(us: seq<bv16>)
    ensures Decode(Utf8All(us)) == if NoSurrogates(us) then Some(us) else None
  {
    if us != [] {
      Utf8RoundTrip(us[1..]);
      DecodeUtf8(us[0], Utf8All(us[1..]));
      SurrogatesSplit(us);
      assert [us[0]] + us[1..] == us;
    }
  }

  lemma SurrogatesSplit(us: seq<bv16>)
    requires us != []
    ensures NoSurrogates(us) <==> !Surrogate(us[0]) && NoSurrogates(us[1..])
  {
    if !Surrogate(us[0]) && NoSurrogates(us[1..]) {
      forall i | 0 <= i < |us|
        ensures !Surrogate(us[i])
      {
        assert i == 0 || us[i] == us[1..][i - 1];
      }
    }
    if NoSurrogates(us) {
      forall i | 0 <= i < |us[1..]|
        ensures !Surrogate(us[1..][i])
      {
        assert us[1..][i] == us[i + 1];
      }
    }
  }

  // ---- The whole output ----

  function Output(table: Table, src: seq<bv8>, n: nat): (r: seq<bv8>)
    requires Complete(table) && n < |src|
  {
    Utf8All(CodePoints(table, src, n, 0)) + [0]
  }

  predicate NoNul(s: seq<bv8>) {
    forall i :: 0 <= i < |s| ==> s[i] != 0
  }

  lemma Utf8HasNoNul(u: bv16)
    requires u != 0
    ensures NoNul(Utf8(u))
  {
    if u < 0x80 {
      assert Low(u) != 0;
    } else if u <= 0x7FF {
      assert Lead2(u) != 0 && Last(u) != 0;
    } else {
      assert Lead3(u) != 0 && Middle(u) != 0 && Last(u) != 0;
    }
  }

  lemma NoNulConcat(a: seq<bv8>, b: seq<bv8>)
    requires NoNul(a) && NoNul(b)
    ensures NoNul(a + b)
  {
  }

  lemma ByteIsNotZero(b: bv8)
    requires b != 0
    ensures b as bv16 != 0
  {
  }

  lemma {:induction false} PrependAll(u: bv16, us: seq<bv16>)
    ensures Utf8All([u] + us) == Utf8(u) + Utf8All(us)
  {
    assert ([u] + us)[1..] == us;
  }

  /** Nothing but the end of the output is NUL, and from position `i` on at most three bytes come from each byte. */
  lemma {:induction false} OutputFits(table: Table, src: seq<bv8>, n: nat, i: nat)
    requires Complete(table) && n < |src| && i <= n + 1
    ensures var out := Utf8All(CodePoints(table, src, n, i));
            NoNul(out) && |out| <= if i < n then 3 * (n - i) else 0
    decreases n + 1 - i
  {
    if i >= n || src[i] == 0 {
    } else if src[i] & 0x80 == 0 {
      var u, us := src[i] as bv16, CodePoints(table, src, n, i + 1);
      OutputFits(table, src, n, i + 1);
      ByteIsNotZero(src[i]);
      AddOne(u, us);
    } else if src[i + 1] == 0 {
      AddOne(0x3F, []);
    } else {
      OutputFits(table, src, n, i + 2);
      AddOne(if src[i + 1] & 0x7F == 0x7F then 0x3F else Lookup(table, src[i], src[i + 1]),
             CodePoints(table, src, n, i + 2));
    }
  }

  lemma AddOne(u: bv16, us: seq<bv16>)
    requires u != 0 && NoNul(Utf8All(us))
    ensures var out := Utf8All([u] + us); NoNul(out) && |out| <= 3 + |Utf8All(us)|
  {
    PrependAll(u, us);
    Utf8HasNoNul(u);
    NoNulConcat(Utf8(u), Utf8All(us));
  }

  /**
   * What pr_info_gbk relies on: the output fits the four bytes per byte it allocates exactly if there is a byte, its
   * only NUL is the last byte, and what is before it reads as the code points unless one is a surrogate.
   */
  lemma OutputIsReadable(table: Table, src: seq<bv8>, n: nat)
    requires Complete(table) && n < |src|
    ensures var out, us := Output(table, src, n), CodePoints(table, src, n, 0);
            && (|out| <= 4 * n <==> n >= 1)
            && NoNul(out[..|out| - 1]) && out[|out| - 1] == 0
            && Decode(out[..|out| - 1]) == if NoSurrogates(us) then Some(us) else None
  {
    OutputFits(table, src, n, 0);
    Utf8RoundTrip(CodePoints(table, src, n, 0));
    var text := Utf8All(CodePoints(table, src, n, 0));
    assert (text + [0])[..|text|] == text;
  }

  /** Well-formed text is printed so that a reader of UTF-8 gets what the table holds for its characters. */
  lemma TextIsPrinted(table: Table, text: seq<Character>, behind: bv8)
    requires Complete(table) && AllWellFormed(text) && NoSurrogates(Meanings(table, text))
    ensures var src := TextBytes(text) + [behind];
            var out := Output(table, src, |TextBytes(text)|);
            out[|out| - 1] == 0 && Decode(out[..|out| - 1]) == Some(Meanings(table, text))
  {
    var n := |TextBytes(text)|;
    var src := TextBytes(text) + [behind];
    assert src[0..n] == TextBytes(text);
    TextConverts(table, text, src, n, 0);
    OutputIsReadable(table, src, n);
  }

  // ---- The loop ----

  /** The destination as gbconv8 writes it: `out` so far, cut at `dstlen`. */
  ghost predicate Written(dst: array<bv8>, dstlen: nat, before: seq<bv8>, out: seq<bv8>, cur: nat, remain: nat)
    reads dst
    requires dstlen <= dst.Length
  {
    && cur + remain == dstlen && cur == (if |out| <= dstlen then |out| else dstlen) && |before| == dst.Length
    && dst[..cur] == out[..cur] && dst[cur..] == before[cur..]
  }

  /** gbconv8_FILL_DEST */
  method FillDest(dst: array<bv8>, ghost dstlen: nat, ghost before: seq<bv8>, ghost out: seq<bv8>,
                  cur: nat, remain: nat, len: nat, value: bv8)
    returns (cur': nat, remain': nat, len': nat)
    requires dstlen <= dst.Length && Written(dst, dstlen, before, out, cur, remain) && len == |out|
    modifies dst
    ensures Written(dst, dstlen, before, out + [value], cur', remain') && len' == |out + [value]|
  {
    cur', remain', len' := cur, remain, len + 1;
    if remain' > 0 {
      dst[cur'] := value;
      assert dst[..cur] == old(dst[..cur]) && dst[cur + 1..] == old(dst[cur..])[1..];
      cur' := cur' + 1;
      remain' := remain' - 1;
    }
  }

  /** The branches on the size of the code point */
  method FillUtf8(dst: array<bv8>, ghost dstlen: nat, ghost before: seq<bv8>, ghost out: seq<bv8>,
                  cur: nat, remain: nat, len: nat, unicode: bv16)
    returns (cur': nat, remain': nat, len': nat)
    requires dstlen <= dst.Length && Written(dst, dstlen, before, out, cur, remain) && len == |out|
    modifies dst
    ensures var u := if unicode == 0 then 0x3F else unicode;
            Written(dst, dstlen, before, out + Utf8(u), cur', remain') && len' == |out + Utf8(u)|
  {
    if unicode == 0 {
      cur', remain', len' := FillDest(dst, dstlen, before, out, cur, remain, len, 0x3F);
    } else if unicode > 0 && unicode < 0x0080 {
      cur', remain', len' := FillDest(dst, dstlen, before, out, cur, remain, len, Low(unicode));
    } else if unicode >= 0x0080 && unicode <= 0x07FF {
      cur', remain', len' := FillDest(dst, dstlen, before, out, cur, remain, len, Lead2(unicode));
      cur', remain', len' := FillDest(dst, dstlen, before, out + [Lead2(unicode)], cur', remain', len', Last(unicode));
      assert out + [Lead2(unicode)] + [Last(unicode)] == out + [Lead2(unicode), Last(unicode)];
    } else {
      cur', remain', len' := FillDest(dst, dstlen, before, out, cur, remain, len, Lead3(unicode));
      cur', remain', len' := FillDest(dst, dstlen, before, out + [Lead3(unicode)],
                                     cur', remain', len', Middle(unicode));
      ghost var two := out + [Lead3(unicode)] + [Middle(unicode)];
      cur', remain', len' := FillDest(dst, dstlen, before, two, cur', remain', len', Last(unicode));
      assert two + [Last(unicode)] == out + [Lead3(unicode), Middle(unicode), Last(unicode)];
    }
  }

  /** What is left to write after one more character. */
  lemma OneMore(out: seq<bv8>, u: bv16, us: seq<bv16>, whole: seq<bv8>)
    requires out + Utf8All([u] + us) == whole
    ensures (out + Utf8(u)) + Utf8All(us) == whole
  {
    PrependAll(u, us);
    assert (out + Utf8(u)) + Utf8All(us) == out + (Utf8(u) + Utf8All(us));
  }

  lemma PlainByte(b: bv8)
    requires b & 0x80 == 0
    ensures Utf8(b as bv16) == [b]
  {
    assert (b as bv16) < 0x80 && Low(b as bv16) == b;
  }

  /** One character of two bytes that is in the table. */
  method FillPair(table: Table, dst: array<bv8>, ghost dstlen: nat, ghost before: seq<bv8>, ghost out: seq<bv8>,
                  cur: nat, remain: nat, len: nat, byte1: bv8, byte2: bv8)
    returns (cur': nat, remain': nat, len': nat)
    requires Complete(table) && byte1 & 0x80 != 0
    requires dstlen <= dst.Length && Written(dst, dstlen, before, out, cur, remain) && len == |out|
    modifies dst
    ensures var more := out + Utf8(Lookup(table, byte1, byte2));
            Written(dst, dstlen, before, more, cur', remain') && len' == |more|
  {
    IndexInTable(byte1, byte2);
    var unicode := table(GbkToIndex(byte1, byte2));
    cur', remain', len' := FillUtf8(dst, dstlen, before, out, cur, remain, len, unicode);
  }

  /** The bytes still to come after `out` make up the whole output. */
  ghost predicate Remaining(table: Table, s: seq<bv8>, n: nat, i: nat, out: seq<bv8>, whole: seq<bv8>)
    requires Complete(table) && n < |s|
  {
    out + Utf8All(CodePoints(table, s, n, i)) == whole
  }

  /** The branch for a plain byte. */
  method ConvertPlain(table: Table, src: array<bv8>, srclen: nat, cursrc: nat,
                      dst: array<bv8>, ghost dstlen: nat, ghost before: seq<bv8>,
                      ghost out: seq<bv8>, ghost whole: seq<bv8>,
                      cur: nat, remain: nat, len: nat)
    returns (cur': nat, remain': nat, len': nat, ghost out': seq<bv8>)
    requires Complete(table) && cursrc < srclen < src.Length && src != dst
      && src[cursrc] & 0x80 == 0 && src[cursrc] != 0
    requires dstlen <= dst.Length && Written(dst, dstlen, before, out, cur, remain) && len == |out|
    requires Remaining(table, src[..], srclen, cursrc, out, whole)
    modifies dst
    ensures Written(dst, dstlen, before, out', cur', remain') && len' == |out'|
    ensures Remaining(table, src[..], srclen, cursrc + 1, out', whole)
  {
    var byte1 := src[cursrc];
    cur', remain', len' := FillDest(dst, dstlen, before, out, cur, remain, len, byte1);
    PlainByte(byte1);
    OneMore(out, byte1 as bv16, CodePoints(table, src[..], srclen, cursrc + 1), whole);
    out' := out + [byte1];
  }

  lemma NothingRemains(table: Table, s: seq<bv8>, n: nat, i: nat, out: seq<bv8>, whole: seq<bv8>)
    requires Complete(table) && n < |s| && (i >= n || s[i] == 0) && Remaining(table, s, n, i, out, whole)
    ensures out == whole
  {
    assert out + [] == out;
  }

  /** The branch for a lead byte; `stop` is its break. */
  method ConvertPair(table: Table, src: array<bv8>, srclen: nat, cursrc: nat,
                     dst: array<bv8>, ghost dstlen: nat, ghost before: seq<bv8>,
                     ghost out: seq<bv8>, ghost whole: seq<bv8>,
                     cur: nat, remain: nat, len: nat)
    returns (cur': nat, remain': nat, len': nat, stop: bool, ghost out': seq<bv8>)
    requires Complete(table) && cursrc < srclen < src.Length && src != dst && src[cursrc] & 0x80 != 0
    requires dstlen <= dst.Length && Written(dst, dstlen, before, out, cur, remain) && len == |out|
    requires Remaining(table, src[..], srclen, cursrc, out, whole)
    modifies dst
    ensures Written(dst, dstlen, before, out', cur', remain') && len' == |out'|
    ensures if stop then out' == whole else Remaining(table, src[..], srclen, cursrc + 2, out', whole)
  {
    ghost var s := src[..];
    var byte1, byte2 := src[cursrc], src[cursrc + 1];
    stop := false;
    if byte2 == 0 {
      cur', remain', len' := FillDest(dst, dstlen, before, out, cur, remain, len, 0x3F);
      PlainByte(0x3F);
      assert CodePoints(table, s, srclen, cursrc) == [0x3F] + [];
      OneMore(out, 0x3F, [], whole);
      out' := out + [0x3F];
      stop := true;
    } else if byte2 & 0x7F == 0x7F {
      cur', remain', len' := FillDest(dst, dstlen, before, out, cur, remain, len, 0x3F);
      PlainByte(0x3F);
      OneMore(out, 0x3F, CodePoints(table, s, srclen, cursrc + 2), whole);
      out' := out + [0x3F];
    } else {
      cur', remain', len' := FillPair(table, dst, dstlen, before, out, cur, remain, len, byte1, byte2);
      OneMore(out, Lookup(table, byte1, byte2), CodePoints(table, s, srclen, cursrc + 2), whole);
      out' := out + Utf8(Lookup(table, byte1, byte2));
    }
  }

  /** The loop of gbconv8 */
  method ConvertAll(table: Table, src: array<bv8>, srclen: nat, dst: array<bv8>, dstlen: nat)
    returns (curdst: nat, remainbuf: nat, len: nat)
    requires Complete(table) && srclen < src.Length && dstlen <= dst.Length && src != dst
    modifies dst
    ensures var out := Utf8All(CodePoints(table, src[..], srclen, 0));
            Written(dst, dstlen, old(dst[..]), out, curdst, remainbuf) && len == |out|
  {
    ghost var before, s := dst[..], src[..];
    ghost var out: seq<bv8>, whole := [], Utf8All(CodePoints(table, s, srclen, 0));
    assert [] + whole == whole;
    var cursrc: nat := 0;
    curdst, remainbuf, len := 0, dstlen, 0;
    while cursrc < srclen && src[cursrc] != 0
      invariant cursrc <= srclen + 1 && src[..] == s
      invariant Written(dst, dstlen, before, out, curdst, remainbuf) && len == |out|
      invariant Remaining(table, s, srclen, cursrc, out, whole)
      decreases srclen + 1 - cursrc
    {
      if src[cursrc] & 0x80 == 0 {
        curdst, remainbuf, len, out :=
          ConvertPlain(table, src, srclen, cursrc, dst, dstlen, before, out, whole, curdst, remainbuf, len);
        cursrc := cursrc + 1;
      } else {
        var stop;
        curdst, remainbuf, len, stop, out :=
          ConvertPair(table, src, srclen, cursrc, dst, dstlen, before, out, whole, curdst, remainbuf, len);
        if stop {
          return;
        }
        cursrc := cursrc + 2;
      }
    }
    NothingRemains(table, s, srclen, cursrc, out, whole);
  }

  /**
   * gbconv8.  The result is the length of the whole output whatever `dstlen` is, and the destination gets as
   * much of it as fits, and nothing behind.  A lead byte in the last place reads the byte after the source.
   */
  method GbConv8(table: Table, src: array<bv8>, srclen: nat, dst: array<bv8>, dstlen: nat) returns (len: nat)
    requires Complete(table) && srclen < src.Length && dstlen <= dst.Length && src != dst
    modifies dst
    ensures len == |Output(table, src[..], srclen)|
    ensures var cut := if len <= dstlen then len else dstlen;
            dst[..] == Output(table, src[..], srclen)[..cut] + old(dst[cut..])
  {
    ghost var before := dst[..];
    var curdst, remainbuf;
    curdst, remainbuf, len := ConvertAll(table, src, srclen, dst, dstlen);
    ghost var text := Utf8All(CodePoints(table, src[..], srclen, 0));
    curdst, remainbuf, len := FillDest(dst, dstlen, before, text, curdst, remainbuf, len, 0);
    assert dst[..] == dst[..curdst] + dst[curdst..];
  }
}
