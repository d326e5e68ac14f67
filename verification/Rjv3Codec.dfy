/**
 * What the parser makes of buffers the two serializers write: the exact condition for the bare form, and
 * the round trip of the framed form.
 */
module Rjv3Codec {
  import opened Octets
  import opened Rjv3Prop

  // ---- Fields without outer headers ----

  /** A field as a server sends it; its length byte need not be right. */
  datatype Record = Record(ptype: Byte, len: Byte, content: Bytes)

  function Encode(r: Record): Bytes {
    MAGIC + [r.ptype, r.len] + r.content
  }

  function EncodeAll(rs: seq<Record>): Bytes {
    if rs == [] then [] else Encode(rs[0]) + EncodeAll(rs[1..])
  }

  /** The properties the records stand for: their types and contents, with lengths made right. */
  function Meant(rs: seq<Record>): seq<Prop> {
    if rs == [] then [] else [MeantBy(rs[0])] + Meant(rs[1..])
  }

  function MeantBy(r: Record): Prop {
    MakeProp(r.ptype, r.content, |r.content|)
  }

  /** The parse succeeded and found just what was meant. */
  predicate Right(o: Outcome, rs: seq<Record>) {
    o == Parsed(Meant(rs), true)
  }

  /** The magic stands at `k` in the content; at the very end it only matters if another field follows. */
  predicate MagicInside(content: Bytes, k: nat, last: bool) {
    (if last then k + 4 < |content| else k + 4 <= |content|) && HasMagic(content, k)
  }

  predicate MagicFree(content: Bytes, last: bool) {
    forall k :: 0 <= k < |content| ==> !MagicInside(content, k, last)
  }

  /** A trustworthy length byte must be right; without one, the content must be free of the magic. */
  predicate RecordOk(r: Record, last: bool) {
    if LengthOk(r.ptype, r.len) then r.len == |r.content| + 2
    else MagicFree(r.content, last)
  }

  predicate AllOk(rs: seq<Record>) {
    rs == [] || (RecordOk(rs[0], |rs| == 1) && AllOk(rs[1..]))
  }

  /** No suffix of the magic is a prefix of it: it cannot begin in a content and end in the next field. */
  lemma NoStraddle(content: Bytes, rest: Bytes, k: nat)
    requires |content| - 4 < k < |content| && HasMagic(rest, 0)
    ensures !HasMagic(content + rest, k)
  {
    var f := content + rest;
    assert f[|content|] == rest[0] && f[|content| + 1] == rest[1] && f[|content| + 2] == rest[2];
  }

  lemma MagicInConcat(content: Bytes, rest: Bytes, k: nat)
    requires k < |content| && (rest == [] || (|rest| >= 6 && HasMagic(rest, 0)))
    ensures var f := content + rest; MagicAt(f, |f|, k) <==> MagicInside(content, k, rest == [])
  {
    var f := content + rest;
    if rest == [] {
      assert f == content;
    } else if k + 4 > |content| {
      NoStraddle(content, rest, k);
    }
  }

  lemma MagicAtOffset(mem: Bytes, start: nat, f: Bytes, k: nat)
    requires start <= |mem| && mem[start..] == f
    ensures MagicAt(mem, |mem|, start + k) <==> MagicAt(f, |f|, k)
  {
    if k + 4 < |f| {
      assert mem[start + k] == f[k] && mem[start + k + 1] == f[k + 1];
      assert mem[start + k + 2] == f[k + 2] && mem[start + k + 3] == f[k + 3];
    }
  }

  lemma MagicBehindContent(mem: Bytes, start: nat, content: Bytes, rest: Bytes)
    requires start <= |mem| && mem[start..] == content + rest && |rest| >= 6 && HasMagic(rest, 0)
    ensures MagicAt(mem, |mem|, start + |content|)
  {
    var f := content + rest;
    assert f[|content|] == rest[0] && f[|content| + 1] == rest[1];
    assert f[|content| + 2] == rest[2] && f[|content| + 3] == rest[3];
    MagicAtOffset(mem, start, f, |content|);
  }

  /** The search ends exactly at the end of the content if and only if the content hides no magic. */
  lemma SearchStopsAtContent(mem: Bytes, start: nat, content: Bytes, rest: Bytes)
    requires start <= |mem| && mem[start..] == content + rest
    requires rest == [] || (|rest| >= 6 && HasMagic(rest, 0))
    ensures var next := FindMagic(mem, |mem|, start);
            (if next >= 0 then next else |mem|) - start == |content| <==> MagicFree(content, rest == [])
  {
    var next, end, last := FindMagic(mem, |mem|, start), start + |content|, rest == [];
    FindMagicIsFirst(mem, |mem|, start);
    forall k | 0 <= k < |content| ensures MagicAt(mem, |mem|, start + k) <==> MagicInside(content, k, last) {
      MagicInConcat(content, rest, k);
      MagicAtOffset(mem, start, content + rest, k);
    }
    if rest != [] {
      MagicBehindContent(mem, start, content, rest);
      assert 0 <= next <= end;
    }
    if next < 0 || next >= end {
      forall k | 0 <= k < |content| ensures !MagicInside(content, k, last) {
        assert !MagicAt(mem, |mem|, start + k);
      }
    } else {
      assert MagicInside(content, next - start, last);
    }
  }

  lemma HeadSize(mem: Bytes, at: nat, r: Record, rest: Bytes)
    requires at <= |mem| && mem[at..] == Encode(r) + rest
    requires rest == [] || (|rest| >= 6 && HasMagic(rest, 0))
    ensures at + 6 + |r.content| + |rest| == |mem| && HasMagic(mem, at)
    ensures mem[at + 4] == r.ptype && mem[at + 6..] == r.content + rest
    ensures BareSize(mem, |mem|, at) == |r.content| <==> RecordOk(r, rest == [])
  {
    var m := mem[at..];
    assert HasMagic(m, 0) && m[4] == r.ptype && m[5] == r.len;
    assert mem[at] == m[0] && mem[at + 1] == m[1] && mem[at + 2] == m[2] && mem[at + 3] == m[3];
    assert mem[at + 6..] == m[6..] == r.content + rest;
    SearchStopsAtContent(mem, at + 6, r.content, rest);
  }

  lemma EncodeSplits(rs: seq<Record>, r: Record, rest: Bytes)
    requires rs != [] && r == rs[0] && rest == EncodeAll(rs[1..])
    ensures EncodeAll(rs) == Encode(r) + rest && (rest == [] <==> |rs| == 1)
    ensures rest == [] || (|rest| >= 6 && HasMagic(rest, 0))
  {
    assert |rs| > 1 ==> |rs[1..]| > 0;
  }

  /** The outcome from offset `at` on, for a buffer that ends with the readable memory. */
  function BareAt(mem: Bytes, at: nat): Outcome {
    ParseBare(mem, |mem|, at)
  }

  lemma FieldOverruns(mem: Bytes, at: nat, n: nat, o: Outcome)
    requires at + 6 <= |mem| < at + 6 + n && HasMagic(mem, at) && n == BareSize(mem, |mem|, at)
    requires o == BareAt(mem, at)
    ensures o == Overrun
  {
  }

  /** One field of a parse that does not overrun. */
  lemma FieldRead(mem: Bytes, at: nat, n: nat, p: Prop, o: Outcome, tail: Outcome)
    requires at + 6 + n <= |mem| && HasMagic(mem, at) && n == BareSize(mem, |mem|, at)
    requires p == MakeProp(mem[at + 4], Slice(mem, at + 6, n), n)
    requires o == BareAt(mem, at) && tail == BareAt(mem, at + 6 + n)
    ensures o == Prepend(p, tail)
  {
  }

  lemma SameContent(mem: Bytes, at: nat, r: Record, rest: Bytes)
    requires at + 6 <= |mem| && mem[at + 6..] == r.content + rest
    ensures var n := |r.content|;
            at + 6 + n <= |mem| && MakeProp(r.ptype, Slice(mem, at + 6, n), n) == MeantBy(r)
            && mem[at + 6 + n..] == rest
  {
    var n := |r.content|;
    assert mem[at + 6..][..n] == r.content && mem[at + 6..][n..] == rest;
    assert Slice(mem, at + 6, n) == r.content;
  }

  lemma RightFirst(mem: Bytes, at: nat, r: Record, rest: Bytes, o: Outcome, tail: Outcome)
    requires at <= |mem| && mem[at..] == Encode(r) + rest && RecordOk(r, rest == [])
    requires rest == [] || (|rest| >= 6 && HasMagic(rest, 0))
    requires o == BareAt(mem, at) && tail == BareAt(mem, at + 6 + |r.content|)
    ensures at + 6 + |r.content| <= |mem| && mem[at + 6 + |r.content|..] == rest && o == Prepend(MeantBy(r), tail)
  {
    HeadSize(mem, at, r, rest);
    SameContent(mem, at, r, rest);
    RightOutcome(mem, at, r, o, tail);
  }

  lemma RightOutcome(mem: Bytes, at: nat, r: Record, o: Outcome, tail: Outcome)
    requires at + 6 + |r.content| <= |mem| && HasMagic(mem, at) && mem[at + 4] == r.ptype
    requires BareSize(mem, |mem|, at) == |r.content|
    requires MakeProp(r.ptype, Slice(mem, at + 6, |r.content|), |r.content|) == MeantBy(r)
    requires o == BareAt(mem, at) && tail == BareAt(mem, at + 6 + |r.content|)
    ensures o == Prepend(MeantBy(r), tail)
  {
    FieldRead(mem, at, |r.content|, MeantBy(r), o, tail);
  }

  lemma WrongFirst(mem: Bytes, at: nat, r: Record, rest: Bytes, o: Outcome)
    requires at <= |mem| && mem[at..] == Encode(r) + rest && !RecordOk(r, rest == [])
    requires rest == [] || (|rest| >= 6 && HasMagic(rest, 0))
    requires o == BareAt(mem, at)
    ensures o.Parsed? ==> o.props != [] && o.props[0] != MeantBy(r)
  {
    HeadSize(mem, at, r, rest);
    var n := BareSize(mem, |mem|, at);
    if at + 6 + n <= |mem| {
      var p := MakeProp(mem[at + 4], Slice(mem, at + 6, n), n);
      FieldRead(mem, at, n, p, o, BareAt(mem, at + 6 + n));
      assert |p.content| == n;
    } else {
      FieldOverruns(mem, at, n, o);
    }
  }

  lemma RightPrepend(r: Record, o: Outcome, rs: seq<Record>)
    requires rs != [] && rs[0] == r
    ensures Right(Prepend(MeantBy(r), o), rs) <==> Right(o, rs[1..])
  {
    if o.Parsed? {
      assert ([MeantBy(r)] + o.props)[1..] == o.props && Meant(rs)[1..] == Meant(rs[1..]);
    }
  }

  lemma NotRight(o: Outcome, rs: seq<Record>)
    requires rs != [] && (o.Parsed? ==> o.props != [] && o.props[0] != MeantBy(rs[0]))
    ensures !Right(o, rs)
  {
    assert Meant(rs)[0] == MeantBy(rs[0]);
  }

  lemma HeadIsRight(mem: Bytes, at: nat, r: Record, rest: Bytes, rs: seq<Record>, o: Outcome, tail: Outcome)
    requires at <= |mem| && mem[at..] == Encode(r) + rest && RecordOk(r, rest == [])
    requires rest == [] || (|rest| >= 6 && HasMagic(rest, 0))
    requires rs != [] && r == rs[0]
    requires o == BareAt(mem, at) && tail == BareAt(mem, at + 6 + |r.content|)
    ensures at + 6 + |r.content| <= |mem| && mem[at + 6 + |r.content|..] == rest
    ensures Right(o, rs) <==> Right(tail, rs[1..])
  {
    RightFirst(mem, at, r, rest, o, tail);
    RightPrepend(r, tail, rs);
  }

  lemma HeadIsWrong(mem: Bytes, at: nat, r: Record, rest: Bytes, rs: seq<Record>, o: Outcome)
    requires at <= |mem| && mem[at..] == Encode(r) + rest && !RecordOk(r, rest == [])
    requires rest == [] || (|rest| >= 6 && HasMagic(rest, 0))
    requires rs != [] && r == rs[0] && o == BareAt(mem, at)
    ensures !Right(o, rs)
  {
    WrongFirst(mem, at, r, rest, o);
    NotRight(o, rs);
  }

  predicate Yields(mem: Bytes, at: nat, o: Outcome) {
    o == BareAt(mem, at)
  }

  /** The first field decides together with the rest. */
  lemma HeadDecides(mem: Bytes, at: nat, r: Record, rest: Bytes, last: bool, rs: seq<Record>, o: Outcome, tail: Outcome)
    requires at <= |mem| && mem[at..] == Encode(r) + rest && last == (rest == [])
    requires rest == [] || (|rest| >= 6 && HasMagic(rest, 0))
    requires rs != [] && r == rs[0] && o == BareAt(mem, at) && tail == BareAt(mem, at + 6 + |r.content|)
    ensures RecordOk(r, last) ==> at + 6 + |r.content| <= |mem| && mem[at + 6 + |r.content|..] == rest
    ensures Right(o, rs) <==> RecordOk(r, last) && Right(tail, rs[1..])
  {
    if RecordOk(r, last) {
      HeadIsRight(mem, at, r, rest, rs, o, tail);
    } else {
      HeadIsWrong(mem, at, r, rest, rs, o);
    }
  }

  lemma ParseHead(mem: Bytes, at: nat, rs: seq<Record>, r: Record, rest: Bytes, o: Outcome)
    returns (tail: Outcome, next: nat)
    requires at <= |mem| && rs != [] && r == rs[0] && rest == EncodeAll(rs[1..]) && mem[at..] == EncodeAll(rs)
    requires Yields(mem, at, o)
    ensures Yields(mem, next, tail)
    ensures RecordOk(r, |rs| == 1) ==> next <= |mem| && mem[next..] == rest
    ensures Right(o, rs) <==> RecordOk(r, |rs| == 1) && Right(tail, rs[1..])
  {
    next := at + 6 + |r.content|;
    tail := BareAt(mem, next);
    EncodeSplits(rs, r, rest);
    HeadDecides(mem, at, r, rest, |rs| == 1, rs, o, tail);
  }

  lemma {:induction false} ParseTail(mem: Bytes, at: nat, rs: seq<Record>, o: Outcome)
    requires at <= |mem| && mem[at..] == EncodeAll(rs) && Yields(mem, at, o)
    ensures Right(o, rs) <==> AllOk(rs)
    decreases |rs|
  {
    if rs != [] {
      var tail, next := ParseHead(mem, at, rs, rs[0], EncodeAll(rs[1..]), o);
      if RecordOk(rs[0], |rs| == 1) {
        ParseTail(mem, next, rs[1..], tail);
      }
    }
  }

  /**
   * Parsing inverts concatenating if and only if every trustworthy length is right and no content without
   * one hides the magic.
   */
  lemma BareRoundTrip(rs: seq<Record>)
    ensures var buf := EncodeAll(rs);
            Right(Parse(buf, |buf|, true), rs) <==> AllOk(rs)
  {
    var buf := EncodeAll(rs);
    assert buf[0..] == buf;
    ParseTail(buf, 0, rs, BareAt(buf, 0));
  }

  /** A field of type 0 or 1, or with a length below 2, is delimited by the search; any other by its length. */
  lemma SingleField(r: Record)
    ensures var buf := Encode(r);
            Right(Parse(buf, |buf|, true), [r]) <==>
              if r.ptype == 0 || r.ptype == 1 || r.len == 0 || r.len == 1 then MagicFree(r.content, true)
              else r.len == |r.content| + 2
  {
    assert [r][1..] == [];
    assert EncodeAll([r]) == Encode(r) + [] == Encode(r);
    BareRoundTrip([r]);
  }

  /** The magic as the very last bytes of the buffer is content: the search wants something behind it. */
  lemma MagicAtTheEnd(buf: Bytes)
    requires buf == Encode(Record(0, 0, [0x00, 0x00, 0x13, 0x11]))
    ensures Parse(buf, |buf|, true) == Parsed([MakeProp(0, [0x00, 0x00, 0x13, 0x11], 4)], true)
  {
    assert |buf| == 10 && HasMagic(buf, 0) && buf[6..] == [0x00, 0x00, 0x13, 0x11];
    NoRoomForMagic(buf, 10, 6);
    assert Slice(buf, 6, 4) == [0x00, 0x00, 0x13, 0x11];
    assert ParseBare(buf, 10, 10) == Parsed([], true);
  }

  /** An incomplete field, or one that does not begin with the magic, fails and adds nothing, in either form. */
  lemma BadFieldFails(buf: Bytes)
    requires buf != []
    ensures |buf| < 6 || !(buf[0] == 0x00 && buf[1] == 0x00 && buf[2] == 0x13 && buf[3] == 0x11) ==>
              Parse(buf, |buf|, true) == Parsed([], false)
    ensures |buf| < 8 || !(buf[2] == 0x00 && buf[3] == 0x00 && buf[4] == 0x13 && buf[5] == 0x11) ==>
              Parse(buf, |buf|, false) == Parsed([], false)
  {
  }

  /** A field with an unknown outer type ends two bytes in front of the next magic, or with the buffer. */
  lemma UnknownOuterType(buf: Bytes)
    requires buf == [0x02, 0x09] + MAGIC + [5, 0, 7] + Serialize(MakeProp(0x6f, [], 0))
                    + [0x02, 0x09] + MAGIC + [6, 0, 8]
    ensures Parse(buf, |buf|, false)
         == Parsed([MakeProp(5, [7], 1), MakeProp(0x6f, [], 0), MakeProp(6, [8], 1)], true)
  {
    assert |buf| == 26 && HasMagic(buf, 2) && HasMagic(buf, 11) && HasMagic(buf, 19);
    assert !MagicAt(buf, 26, 8) && !MagicAt(buf, 26, 9) && !MagicAt(buf, 26, 10) && MagicAt(buf, 26, 11);
    assert FindMagic(buf, 26, 10) == 11;
    assert FindMagic(buf, 26, 8) == 11;
    assert FramedSize(buf, 26, 0) == 1 && FramedSize(buf, 26, 9) == 0;
    NoRoomForMagic(buf, 26, 25);
    assert FramedSize(buf, 26, 17) == 1;
    assert ParseFramed(buf, 26, 26) == Parsed([], true);
    assert Slice(buf, 25, 1) == [8] && ParseFramed(buf, 26, 17) == Parsed([MakeProp(6, [8], 1)], true);
    assert ParseFramed(buf, 26, 9) == Parsed([MakeProp(0x6f, [], 0), MakeProp(6, [8], 1)], true);
    assert Slice(buf, 8, 1) == [7];
  }

  /** One field whose content holds the magic, type and length of another: it is read as two without content. */
  lemma OneFieldReadAsTwo(buf: Bytes)
    requires buf == Encode(Record(0, 0, MAGIC + [7, 2]))
    ensures Parse(buf, |buf|, true) == Parsed([MakeProp(0, [], 0), MakeProp(7, [], 0)], true)
  {
    assert |buf| == 12 && HasMagic(buf, 0) && HasMagic(buf, 6) && MagicAt(buf, 12, 6);
    assert BareSize(buf, 12, 0) == 0 && BareSize(buf, 12, 6) == 0;
    assert ParseBare(buf, 12, 12) == Parsed([], true);
    assert ParseBare(buf, 12, 6) == Parsed([MakeProp(7, [], 0)], true);
  }

  // ---- Properties with outer headers ----

  /** The bytes append_rjv3_prop_to_buffer writes for a property whose length byte is right. */
  function Serialize(p: Prop): Bytes {
    [p.headerType, p.headerLen] + MAGIC + [p.ptype, p.len] + p.content
  }

  function SerializeAll(ps: seq<Prop>): Bytes {
    if ps == [] then [] else SerializeAll(ps[..|ps| - 1]) + Serialize(ps[|ps| - 1])
  }

  /** What append_rjv3_prop_to_buffer returns when there is room. */
  function FullSize(p: Prop): int {
    8 + ContentSize(p)
  }

  function TotalSize(ps: seq<Prop>): int {
    if ps == [] then 0 else TotalSize(ps[..|ps| - 1]) + FullSize(ps[|ps| - 1])
  }

  /** Made by append_rjv3_prop from a content that fits the length byte. */
  predicate WellFormed(p: Prop) {
    |p.content| <= 253 && p == MakeProp(p.ptype, p.content, |p.content|)
  }

  predicate AllWellFormed(ps: seq<Prop>) {
    forall p :: p in ps ==> WellFormed(p)
  }

  /** Byte by byte: the outer length counts everything, the inner one type, length and content. */
  lemma SerializedLayout(p: Prop)
    requires WellFormed(p)
    ensures var s := Serialize(p);
            && |s| == 8 + |p.content| && s[0] == 0x1a && s[1] == |s| % 256
            && s[2] == 0x00 && s[3] == 0x00 && s[4] == 0x13 && s[5] == 0x11
            && s[6] == p.ptype && s[7] == |p.content| + 2 && s[8..] == p.content
  {
    LowByteIsRemainder(|p.content| + 8);
    LowByteIsRemainder(|p.content| + 2);
    assert Serialize(p)[8..] == p.content;
  }

  /** The same for each property of a list, wherever it lies. */
  lemma {:induction false} ListLayout(ps: seq<Prop>, i: nat) returns (at: nat)
    requires AllWellFormed(ps) && i < |ps|
    ensures at + |Serialize(ps[i])| <= |SerializeAll(ps)| && (i == 0 ==> at == 0)
    ensures SerializeAll(ps)[at..at + |Serialize(ps[i])|] == Serialize(ps[i])
    ensures SerializeAll(ps)[at + 1] == |Serialize(ps[i])| % 256
    decreases |ps|
  {
    var init, last := ps[..|ps| - 1], Serialize(ps[|ps| - 1]);
    assert ps[i] in ps;
    SerializedLayout(ps[i]);
    if i == |ps| - 1 {
      at := |SerializeAll(init)|;
    } else {
      at := ListLayout(init, i);
      assert SerializeAll(ps)[at..at + |Serialize(ps[i])|] == SerializeAll(init)[at..at + |Serialize(ps[i])|];
    }
  }

  /** The length byte of a new property covers its content if and only if that has at most 253 bytes. */
  lemma LengthByteFits(ptype: Byte, content: Bytes)
    ensures ContentSize(MakeProp(ptype, content, |content|)) == |content| <==> |content| <= 253
  {
  }

  lemma {:induction false} SizeIsTotal(ps: seq<Prop>)
    requires AllWellFormed(ps)
    ensures |SerializeAll(ps)| == TotalSize(ps) >= 8 * |ps|
  {
    if ps != [] {
      assert ps[|ps| - 1] in ps;
      SizeIsTotal(ps[..|ps| - 1]);
    }
  }

  /** append_rjv3_prop_to_buffer at `offset` of `buf`, with `buflen` bytes of room. */
  method AppendToBuffer(p: Prop, buf: array<Byte>, offset: nat, buflen: int) returns (r: int)
    requires ContentSize(p) == |p.content| && offset + buflen <= buf.Length
    modifies buf
    ensures buflen < FullSize(p) ==> r == -1 && buf[..] == old(buf[..])
    ensures buflen >= FullSize(p) && p.headerType != 0x1a ==> r == 0 && buf[..] == old(buf[..])
    ensures buflen >= FullSize(p) && p.headerType == 0x1a ==>
              && r == FullSize(p) == |Serialize(p)|
              && buf[..offset + r] == old(buf[..offset]) + Serialize(p) && buf[offset + r..] == old(buf[offset + r..])
  {
    var contentLen := ContentSize(p);
    var fullLen := 8 + contentLen;
    if buflen < fullLen {
      return -1;
    }
    if p.headerType != 0x1a {
      return 0;
    }
    var bytes := [p.headerType, p.headerLen] + MAGIC + [p.ptype, p.len] + p.content;
    forall k | 0 <= k < |bytes| {
      buf[offset + k] := bytes[k];
    }
    r := fullLen;
  }

  lemma {:induction false} SerializeHead(ps: seq<Prop>)
    requires ps != []
    ensures SerializeAll(ps) == Serialize(ps[0]) + SerializeAll(ps[1..])
  {
    var init, last := ps[..|ps| - 1], Serialize(ps[|ps| - 1]);
    if init == [] {
      assert ps[1..] == [];
    } else {
      SerializeHead(init);
      assert ps[1..][..|ps| - 2] == init[1..];
      assert Serialize(ps[0]) + SerializeAll(init[1..]) + last == Serialize(ps[0]) + (SerializeAll(init[1..]) + last);
    }
  }

  /** What one property adds to the running total of append_rjv3_prop_list_to_buffer: -1 if it does not fit. */
  function Gain(p: Prop, room: int): int {
    if room < FullSize(p) then -1 else FullSize(p)
  }

  /** The result of append_rjv3_prop_list_to_buffer, failures included. */
  function AppendResult(ps: seq<Prop>, room: int): int {
    if ps == [] then 0 else Gain(ps[0], room) + AppendResult(ps[1..], room - Gain(ps[0], room))
  }

  lemma HeadRoom(ps: seq<Prop>)
    requires AllWellFormed(ps) && ps != []
    ensures AllWellFormed(ps[1..]) && WellFormed(ps[0]) && |Serialize(ps[0])| == FullSize(ps[0])
    ensures |SerializeAll(ps)| == FullSize(ps[0]) + |SerializeAll(ps[1..])|
  {
    SerializeHead(ps);
    assert ps[0] in ps && forall q :: q in ps[1..] ==> q in ps;
  }

  /** It is the serialized size if and only if there was room for everything. */
  lemma {:induction false} AppendResultIsTotal(ps: seq<Prop>, room: int)
    requires 0 <= room && AllWellFormed(ps)
    ensures AppendResult(ps, room) <= |SerializeAll(ps)|
    ensures AppendResult(ps, room) == |SerializeAll(ps)| <==> |SerializeAll(ps)| <= room
  {
    if ps != [] {
      HeadRoom(ps);
      AppendResultIsTotal(ps[1..], room - Gain(ps[0], room));
    }
  }

  /** Two properties without content and room for one: seven is returned, as if there had been room. */
  lemma SecondDoesNotFit(p: Prop)
    requires p == MakeProp(0x6f, [], 0)
    ensures AppendResult([p, p], 8) == 7 && |SerializeAll([p, p])| == 16
  {
    assert [p, p][1..] == [p] && [p][1..] == [];
    assert AppendResult([p], 0) == -1;
    assert [p, p][..1] == [p] && [p][..0] == [];
    assert SerializeAll([p]) == Serialize(p);
  }

  function Place(mem: Bytes, at: nat, bytes: Bytes): (r: Bytes)
    requires at + |bytes| <= |mem|
    ensures |r| == |mem|
  {
    mem[..at] + bytes + mem[at + |bytes|..]
  }

  function WrittenOne(mem: Bytes, p: Prop, at: nat, end: int): (r: Bytes)
    requires WellFormed(p) && end <= |mem|
    ensures |r| == |mem|
  {
    if end - at < FullSize(p) then mem else Place(mem, at, Serialize(p))
  }

  /** Well-formed, and no running total leads back behind the start of the memory. */
  predicate ReadyAt(ps: seq<Prop>, at: int, end: int) {
    ps == [] || (0 <= at && WellFormed(ps[0]) && ReadyAt(ps[1..], at + Gain(ps[0], end - at), end))
  }

  /** The memory afterwards: each property that found room lies where the running total pointed. */
  function Written(mem: Bytes, ps: seq<Prop>, at: int, end: int): (r: Bytes)
    requires end <= |mem| && ReadyAt(ps, at, end)
    ensures |r| == |mem|
    decreases |ps|
  {
    if ps == [] then mem else Written(WrittenOne(mem, ps[0], at, end), ps[1..], at + Gain(ps[0], end - at), end)
  }

  lemma WrittenHead(mem: Bytes, ps: seq<Prop>, p: Prop, rest: seq<Prop>, at: nat, next: nat, end: int, one: Bytes)
    requires ps != [] && ps[0] == p && ps[1..] == rest && WellFormed(p) && at + FullSize(p) == next <= end <= |mem|
    requires |Serialize(p)| == FullSize(p) && one == Place(mem, at, Serialize(p)) && ReadyAt(rest, next, end)
    ensures ReadyAt(ps, at, end) && Written(mem, ps, at, end) == Written(one, rest, next, end)
  {
  }

  /** With enough room the properties lie one behind the other. */
  lemma {:induction false} WrittenWithRoom(mem: Bytes, ps: seq<Prop>, at: nat, end: int, body: Bytes)
    requires AllWellFormed(ps) && body == SerializeAll(ps) && at + |body| <= end <= |mem|
    ensures ReadyAt(ps, at, end) && Written(mem, ps, at, end) == Place(mem, at, body)
    decreases |ps|
  {
    if ps == [] {
      PlaceNothing(mem, at);
    } else {
      var first, more := HeadAndRest(ps, body);
      var one, next := Place(mem, at, first), at + |first|;
      WrittenWithRoom(one, ps[1..], next, end, more);
      WrittenHead(mem, ps, ps[0], ps[1..], at, next, end, one);
      PlaceTwice(mem, at, first, more);
    }
  }

  lemma HeadAndRest(ps: seq<Prop>, body: Bytes) returns (first: Bytes, more: Bytes)
    requires AllWellFormed(ps) && ps != [] && body == SerializeAll(ps)
    ensures AllWellFormed(ps[1..]) && WellFormed(ps[0])
    ensures first == Serialize(ps[0]) && |first| == FullSize(ps[0])
    ensures more == SerializeAll(ps[1..]) && body == first + more
  {
    HeadRoom(ps);
    SerializeHead(ps);
    first, more := Serialize(ps[0]), SerializeAll(ps[1..]);
  }

  lemma PlaceNothing(mem: Bytes, at: nat)
    requires at <= |mem|
    ensures Place(mem, at, []) == mem
  {
  }

  lemma PlaceTwice(mem: Bytes, at: nat, a: Bytes, b: Bytes)
    requires at + |a| + |b| <= |mem|
    ensures Place(Place(mem, at, a), at + |a|, b) == Place(mem, at, a + b)
  {
  }

  lemma PlaceParts(mem: Bytes, at: nat, bytes: Bytes)
    requires at + |bytes| <= |mem|
    ensures Place(mem, at, bytes)[..at + |bytes|] == mem[..at] + bytes
    ensures Place(mem, at, bytes)[at + |bytes|..] == mem[at + |bytes|..]
  {
  }

  /**
   * append_rjv3_prop_list_to_buffer.  The -1 of a property that does not fit is added to an unsigned running
   * total, which goes back by one; the next property is tried there.
   */
  method AppendListToBuffer(ps: seq<Prop>, buf: array<Byte>, offset: nat, buflen: int) returns (r: int)
    requires offset + buflen <= buf.Length && ReadyAt(ps, offset, offset + buflen)
    modifies buf
    ensures r == AppendResult(ps, buflen) && buf[..] == Written(old(buf[..]), ps, offset, offset + buflen)
  {
    r := 0;
    var i := 0;
    ghost var left, end := ps, offset + buflen;
    ghost var total, goal := AppendResult(ps, buflen), Written(buf[..], ps, offset, end);
    while i < |ps|
      invariant 0 <= i <= |ps| && left == ps[i..]
      invariant Remains(left, buf[..], offset + r, end, total - r, goal)
    {
      assert left[0] == ps[i] && left[1..] == ps[i + 1..];
      var single := AppendTurn(ps[i], buf, offset + r, buflen - r, left, total - r, goal);
      left, i, r := left[1..], i + 1, r + single;
    }
    assert left == [];
  }

  /** `total` is still to be counted and `goal` still to be reached. */
  ghost predicate Remains(left: seq<Prop>, mem: Bytes, at: int, end: int, total: int, goal: Bytes) {
    && end <= |mem| && ReadyAt(left, at, end)
    && AppendResult(left, end - at) == total && Written(mem, left, at, end) == goal
  }

  /** One turn of the loop, for the first of the properties that are left. */
  lemma RemainsUnfold(left: seq<Prop>, mem: Bytes, at: int, end: int, total: int, goal: Bytes)
    requires left != [] && Remains(left, mem, at, end, total, goal)
    ensures 0 <= at && end <= |mem| && WellFormed(left[0])
    ensures var gain := Gain(left[0], end - at);
            Remains(left[1..], WrittenOne(mem, left[0], at, end), at + gain, end, total - gain, goal)
  {
  }

  /** One turn of the loop. */
  method AppendTurn(p: Prop, buf: array<Byte>, at: int, buflen: int,
                    ghost left: seq<Prop>, ghost total: int, ghost goal: Bytes)
    returns (single: int)
    requires left != [] && left[0] == p && Remains(left, buf[..], at, at + buflen, total, goal)
    modifies buf
    ensures Remains(left[1..], buf[..], at + single, at + buflen, total - single, goal)
  {
    RemainsUnfold(left, buf[..], at, at + buflen, total, goal);
    single := AppendAt(p, buf, at, buflen);
  }

  /** One property. */
  method AppendAt(p: Prop, buf: array<Byte>, at: nat, buflen: int) returns (single: int)
    requires WellFormed(p) && at + buflen <= buf.Length
    modifies buf
    ensures single == Gain(p, buflen)
    ensures buf[..] == WrittenOne(old(buf[..]), p, at, at + buflen)
  {
    single := AppendToBuffer(p, buf, at, buflen);
    if single != -1 {
      assert buf[..] == buf[..at + single] + buf[at + single..];
      assert old(buf[..])[..at] == old(buf[..at]);
      assert old(buf[..])[at + single..] == old(buf[at + single..]);
    }
  }

  /** append_rjv3_prop_list_to_buffer when there is room for everything. */
  method AppendWithRoom(ps: seq<Prop>, buf: array<Byte>, offset: nat, buflen: int) returns (r: int)
    requires AllWellFormed(ps) && |SerializeAll(ps)| <= buflen && offset + buflen <= buf.Length
    modifies buf
    ensures r == |SerializeAll(ps)|
    ensures buf[..offset + r] == old(buf[..offset]) + SerializeAll(ps) && buf[offset + r..] == old(buf[offset + r..])
  {
    ghost var before, body := buf[..], SerializeAll(ps);
    WrittenWithRoom(before, ps, offset, offset + buflen, body);
    AppendResultIsTotal(ps, buflen);
    r := AppendListToBuffer(ps, buf, offset, buflen);
    PlaceParts(before, offset, body);
    SliceOf(buf, offset + r);
    assert before[..offset] == old(buf[..offset]) && before[offset + r..] == old(buf[offset + r..]);
  }

  lemma SliceOf(buf: array<Byte>, n: nat)
    requires n <= buf.Length
    ensures buf[..][..n] == buf[..n] && buf[..][n..] == buf[n..]
  {
  }

  function FramedAt(mem: Bytes, at: nat): Outcome {
    ParseFramed(mem, |mem|, at)
  }

  lemma FramedRead(mem: Bytes, at: nat, next: nat, n: nat, p: Prop, o: Outcome, tail: Outcome)
    requires at + 8 + n <= |mem| && HasMagic(mem, at + 2) && n == FramedSize(mem, |mem|, at) && next == at + 8 + n
    requires p == MakeProp(mem[at + 6], Slice(mem, at + 8, n), n)
    requires o == FramedAt(mem, at) && tail == FramedAt(mem, next)
    ensures o == Prepend(p, tail)
  {
  }

  lemma FramedOutcome(mem: Bytes, at: nat, next: nat, p: Prop, o: Outcome, tail: Outcome)
    requires next == at + 8 + |p.content| <= |mem| && HasMagic(mem, at + 2) && mem[at + 6] == p.ptype
    requires FramedSize(mem, |mem|, at) == |p.content|
    requires p == MakeProp(p.ptype, Slice(mem, at + 8, |p.content|), |p.content|)
    requires o == FramedAt(mem, at) && tail == FramedAt(mem, next)
    ensures o == Prepend(p, tail)
  {
    FramedRead(mem, at, next, |p.content|, p, o, tail);
  }

  lemma FramedFirst(mem: Bytes, at: nat, next: nat, p: Prop, rest: Bytes, o: Outcome, tail: Outcome)
    requires at <= |mem| && mem[at..] == Serialize(p) + rest && WellFormed(p) && next == at + 8 + |p.content|
    requires o == FramedAt(mem, at) && tail == FramedAt(mem, next)
    ensures next <= |mem| && mem[next..] == rest && o == Prepend(p, tail)
  {
    FramedHead(mem, at, p, rest);
    FramedOutcome(mem, at, next, p, o, tail);
  }

  lemma PrependParsed(p: Prop, ps: seq<Prop>)
    requires ps != [] && ps[0] == p
    ensures Prepend(p, Parsed(ps[1..], true)) == Parsed(ps, true)
  {
    assert ps == [p] + ps[1..];
  }

  lemma PrependsToAll(p: Prop, ps: seq<Prop>, o: Outcome, tail: Outcome)
    requires ps != [] && ps[0] == p && o == Prepend(p, tail)
    ensures tail == Parsed(ps[1..], true) ==> o == Parsed(ps, true)
  {
    PrependParsed(p, ps);
  }

  /** The first property of the bytes at `at`, and what is left to show for the others. */
  lemma HeadIsFramed(mem: Bytes, at: nat, rest: Bytes, ps: seq<Prop>, o: Outcome) returns (next: nat, tail: Outcome)
    requires ps != [] && at <= |mem| && mem[at..] == Serialize(ps[0]) + rest && WellFormed(ps[0])
    requires o == FramedAt(mem, at)
    ensures next <= |mem| && mem[next..] == rest && tail == FramedAt(mem, next)
    ensures tail == Parsed(ps[1..], true) ==> o == Parsed(ps, true)
  {
    next := at + 8 + |ps[0].content|;
    tail := FramedAt(mem, next);
    FramedFirst(mem, at, next, ps[0], rest, o, tail);
    PrependsToAll(ps[0], ps, o, tail);
  }

  lemma {:induction false} ParseFramedTail(mem: Bytes, at: nat, ps: seq<Prop>, body: Bytes, o: Outcome)
    requires AllWellFormed(ps) && body == SerializeAll(ps)
    requires at <= |mem| && mem[at..] == body && o == FramedAt(mem, at)
    ensures o == Parsed(ps, true)
    decreases |ps|
  {
    if ps == [] {
      NothingFramed(mem, at, o);
    } else {
      var first, more := HeadAndRest(ps, body);
      var next, tail := HeadIsFramed(mem, at, more, ps, o);
      ParseFramedTail(mem, next, ps[1..], more, tail);
    }
  }

  lemma NothingFramed(mem: Bytes, at: nat, o: Outcome)
    requires at == |mem| && o == FramedAt(mem, at)
    ensures o == Parsed([], true)
  {
  }

  lemma FramedHead(mem: Bytes, at: nat, p: Prop, rest: Bytes)
    requires at <= |mem| && mem[at..] == Serialize(p) + rest && WellFormed(p)
    ensures at + 8 + |p.content| + |rest| == |mem| && HasMagic(mem, at + 2) && mem[at + 6] == p.ptype
    ensures FramedSize(mem, |mem|, at) == |p.content|
    ensures p == MakeProp(p.ptype, Slice(mem, at + 8, |p.content|), |p.content|)
    ensures mem[at + 8 + |p.content|..] == rest
  {
    var m := mem[at..];
    assert m[0] == 0x1a && m[7] == p.len && HasMagic(m, 2);
    assert mem[at + 2] == m[2] && mem[at + 3] == m[3] && mem[at + 4] == m[4] && mem[at + 5] == m[5];
    assert Slice(mem, at + 8, |p.content|) == m[8..8 + |p.content|] == p.content;
    assert mem[at + 8 + |p.content|..] == m[8 + |p.content|..];
  }

  /** Parsing with outer headers gives back every property list append_rjv3_prop built and the serializer wrote. */
  lemma FramedRoundTrip(ps: seq<Prop>)
    requires AllWellFormed(ps)
    ensures var buf := SerializeAll(ps); Parse(buf, |buf|, false) == Parsed(ps, true)
  {
    var buf := SerializeAll(ps);
    assert buf[0..] == buf;
    ParseFramedTail(buf, 0, ps, buf, FramedAt(buf, 0));
  }
}
