/**
 * packet_plugin_rjv3_prop.c: the proprietary type-length-value fields, their serializer, the parser for
 * fields with and without the two-byte outer header, and the search that resynchronises on the magic.
 */
module Rjv3Prop {
  import opened Octets

  const MAGIC: Bytes := [0x00, 0x00, 0x13, 0x11]

  /** RJ_PROP.  The magic of a property is always MAGIC, so it is not stored. */
  datatype Prop = Prop(headerType: Byte, headerLen: Byte, ptype: Byte, len: Byte, content: Bytes)

  /** An int stored in a byte: it wraps around, one turn at a time. */
  function LowByte(n: int): Byte
    decreases if n < 0 then 256 - n else n
  {
    if n < 0 then LowByte(n + 256) else if n < 256 then n else LowByte(n - 256)
  }

  lemma OneTurn(n: int)
    ensures (n + 256) % 256 == n % 256
  {
  }

  lemma {:induction false} LowByteIsRemainder(n: int)
    ensures LowByte(n) == n % 256
    decreases if n < 0 then 256 - n else n
  {
    if n < 0 {
      LowByteIsRemainder(n + 256);
      OneTurn(n);
    } else if n >= 256 {
      LowByteIsRemainder(n - 256);
      OneTurn(n - 256);
    }
  }

  /** What append_rjv3_prop makes of a length and that many bytes; a length of -1 or -2 brings no bytes. */
  function MakeProp(ptype: Byte, content: Bytes, n: int): Prop {
    Prop(0x1a, LowByte(n + 8), ptype, LowByte(n + 2), content)
  }

  function Slice(mem: Bytes, start: nat, n: int): Bytes
    requires start <= |mem| && start + n <= |mem|
  {
    if n > 0 then mem[start..start + n] else []
  }

  /** PROP_TO_CONTENT_SIZE */
  function ContentSize(p: Prop): int {
    p.len - 2
  }

  // ---- The magic search ----

  /** The four bytes from `k` on are the magic. */
  predicate HasMagic(buf: Bytes, k: nat) {
    k + 4 <= |buf| && buf[k] == 0x00 && buf[k + 1] == 0x00 && buf[k + 2] == 0x13 && buf[k + 3] == 0x11
  }

  /** The magic stands at `k`, with at least one byte behind it. */
  predicate MagicAt(mem: Bytes, limit: int, k: nat)
    requires limit <= |mem|
  {
    k + 4 < limit && HasMagic(mem, k)
  }

  /** The first such place between `from` and `limit`, or -1. */
  function FindMagic(mem: Bytes, limit: int, from: nat): (r: int)
    requires limit <= |mem|
    ensures r == -1 || from <= r < limit
    decreases limit - from
  {
    if from >= limit then -1 else if MagicAt(mem, limit, from) then from else FindMagic(mem, limit, from + 1)
  }

  lemma {:induction false} FindMagicIsFirst(mem: Bytes, limit: int, from: nat)
    requires limit <= |mem|
    ensures var r := FindMagic(mem, limit, from);
            && (r >= 0 ==> MagicAt(mem, limit, r))
            && forall k :: from <= k < (if r < 0 then limit else r) ==> !MagicAt(mem, limit, k)
    decreases limit - from
  {
    if from < limit && !MagicAt(mem, limit, from) {
      FindMagicIsFirst(mem, limit, from + 1);
    }
  }

  /** find_byte_pattern with the magic as its pattern, on the bytes from `start` to `limit`. */
  method FindBytePattern(mem: Bytes, start: nat, limit: int) returns (r: int)
    requires start <= limit <= |mem|
    ensures r == if FindMagic(mem, limit, start) >= 0 then FindMagic(mem, limit, start) - start else -1
  {
    var readLen := start;
    while readLen + 4 < limit
      invariant start <= readLen <= limit
      invariant FindMagic(mem, limit, start) == FindMagic(mem, limit, readLen)
    {
      SliceIsMagic(mem, readLen);
      if mem[readLen..readLen + 4] == MAGIC {
        return readLen - start;
      }
      readLen := readLen + 1;
    }
    NoRoomForMagic(mem, limit, readLen);
    return -1;
  }

  lemma SliceIsMagic(buf: Bytes, k: nat)
    requires k + 4 <= |buf|
    ensures buf[k..k + 4] == MAGIC <==> HasMagic(buf, k)
  {
    var w := buf[k..k + 4];
    assert w == [w[0], w[1], w[2], w[3]];
  }

  lemma {:induction false} NoRoomForMagic(mem: Bytes, limit: int, from: nat)
    requires limit <= |mem| && limit <= from + 4
    ensures FindMagic(mem, limit, from) == -1
    decreases limit - from
  {
    if from < limit {
      NoRoomForMagic(mem, limit, from + 1);
    }
  }

  /** rjv3_prop_length_field_ok */
  predicate LengthOk(ptype: Byte, len: Byte) {
    ptype != 0 && ptype != 1 && len >= 2
  }

  // ---- Parsing ----

  /**
   * `mem` is the readable memory from the start of the buffer on, of which `buflen` bytes belong to the
   * buffer.  Lengths are not checked against the buffer; `Overrun` says memory beyond `mem` would be read.
   */
  datatype Outcome = Parsed(props: seq<Prop>, ok: bool) | Overrun

  function Prepend(p: Prop, o: Outcome): Outcome {
    if o.Overrun? then o else Parsed([p] + o.props, o.ok)
  }

  /** The content size of the field at `at`; a length that cannot be trusted is replaced by a search. */
  function BareSize(mem: Bytes, buflen: int, at: nat): (n: nat)
    requires at + 6 <= buflen <= |mem|
  {
    if LengthOk(mem[at + 4], mem[at + 5]) then mem[at + 5] - 2
    else
      var next := FindMagic(mem, buflen, at + 6);
      (if next >= 0 then next else buflen) - (at + 6)
  }

  /** parse_rjv3_buf_to_prop_list without outer headers, from offset `at` on. */
  function ParseBare(mem: Bytes, buflen: int, at: nat): Outcome
    requires buflen <= |mem|
    decreases |mem| - at
  {
    if at >= buflen then Parsed([], true)
    else if at + 6 > buflen || !HasMagic(mem, at) then Parsed([], false)
    else
      var n := BareSize(mem, buflen, at);
      if at + 6 + n > |mem| then Overrun
      else Prepend(MakeProp(mem[at + 4], Slice(mem, at + 6, n), n), ParseBare(mem, buflen, at + 6 + n))
  }

  function FramedSize(mem: Bytes, buflen: int, at: nat): (n: int)
    requires at + 8 <= buflen <= |mem|
    ensures n >= -2
  {
    if mem[at] == 0x1a then mem[at + 7] - 2
    else
      var next := FindMagic(mem, buflen, at + 8);
      if next >= 0 then next - (at + 8) - 2 else buflen - (at + 8)
  }

  /** parse_rjv3_buf_to_prop_list with outer headers: even a computed size of -2 moves on by six bytes. */
  function ParseFramed(mem: Bytes, buflen: int, at: nat): Outcome
    requires buflen <= |mem|
    decreases |mem| - at
  {
    if at >= buflen then Parsed([], true)
    else if at + 8 > buflen || !HasMagic(mem, at + 2) then Parsed([], false)
    else
      var n := FramedSize(mem, buflen, at);
      if at + 8 + n > |mem| then Overrun
      else Prepend(MakeProp(mem[at + 6], Slice(mem, at + 8, n), n), ParseFramed(mem, buflen, at + 8 + n))
  }

  function Parse(mem: Bytes, buflen: int, bare: bool): Outcome
    requires buflen <= |mem|
  {
    if bare then ParseBare(mem, buflen, 0) else ParseFramed(mem, buflen, 0)
  }

  class PropList {
    var props: seq<Prop>

    constructor ()
      ensures props == []
    {
      props := [];
    }

    /** append_rjv3_prop */
    method Append(ptype: Byte, data: Bytes, n: int) returns (size: int)
      requires n <= |data|
      modifies this
      ensures props == old(props) + [MakeProp(ptype, Slice(data, 0, n), n)]
      ensures size == (n + 8) % 256
    {
      LowByteIsRemainder(n + 8);
      LowByteIsRemainder(n + 2);
      var prop := Prop(0x1a, (n + 8) % 256, ptype, (n + 2) % 256, if n > 0 then data[..n] else []);
      props := props + [prop];
      size := prop.headerLen;
    }

    /** parse_rjv3_buf_to_prop_list: what it finds is appended, whether or not it succeeds in the end. */
    method ParseBuf(mem: Bytes, buflen: int, bare: bool) returns (ok: bool)
      requires buflen <= |mem| && Parse(mem, buflen, bare).Parsed?
      modifies this
      ensures props == old(props) + Parse(mem, buflen, bare).props && ok == Parse(mem, buflen, bare).ok
    {
      if bare {
        ok := ParseBareBuf(mem, buflen);
      } else {
        ok := ParseFramedBuf(mem, buflen);
      }
    }

    /** One round of the loop of parse_rjv3_buf_to_prop_list, without outer headers. */
    method BareField(mem: Bytes, buflen: int, at: nat) returns (ok: bool, next: int)
      requires at < buflen <= |mem|
      requires at + 6 <= buflen && HasMagic(mem, at) ==> at + 6 + BareSize(mem, buflen, at) <= |mem|
      modifies this
      ensures ok <==> at + 6 <= buflen && HasMagic(mem, at)
      ensures !ok ==> props == old(props)
      ensures ok ==> var n := BareSize(mem, buflen, at);
                     && at + 6 <= next == at + 6 + n <= |mem|
                     && props == old(props) + [MakeProp(mem[at + 4], Slice(mem, at + 6, n), n)]
    {
      var readLen := at;
      if readLen + 6 > buflen {
        return false, at;
      }
      SliceIsMagic(mem, readLen);
      if mem[readLen..readLen + 4] != MAGIC {
        return false, at;
      }
      var ptype: Byte, len: int := mem[readLen + 4], mem[readLen + 5];
      readLen := readLen + 6;
      var n := len - 2;
      if !LengthOk(ptype, len) {
        var found := FindBytePattern(mem, readLen, buflen);
        n := if found >= 0 then found else buflen - readLen;
      }
      var _ := Append(ptype, mem[readLen..], n);
      assert Slice(mem[readLen..], 0, n) == Slice(mem, readLen, n);
      return true, readLen + n;
    }

    /** One round, with what the parse has found so far. */
    method NextBare(mem: Bytes, buflen: int, at: nat, ghost goal: Outcome, ghost found: seq<Prop>)
      returns (ok: bool, next: int, ghost more: seq<Prop>)
      requires at < buflen <= |mem| && Continues(goal, found, ParseBare(mem, buflen, at))
      modifies this
      ensures props == old(props) + more
      ensures ok ==> at < next <= |mem| && Continues(goal, found + more, ParseBare(mem, buflen, next))
      ensures !ok ==> more == [] && goal == Parsed(found, false)
    {
      BareFits(mem, buflen, at);
      ok, next := BareField(mem, buflen, at);
      more := [];
      if ok {
        ghost var n := BareSize(mem, buflen, at);
        BareStep(goal, found, mem, buflen, at);
        more := [MakeProp(mem[at + 4], Slice(mem, at + 6, n), n)];
      }
    }

    method ParseBareBuf(mem: Bytes, buflen: int) returns (ok: bool)
      requires buflen <= |mem| && ParseBare(mem, buflen, 0).Parsed?
      modifies this
      ensures props == old(props) + ParseBare(mem, buflen, 0).props && ok == ParseBare(mem, buflen, 0).ok
    {
      var readLen := 0;
      ghost var goal := ParseBare(mem, buflen, 0);
      ghost var found: seq<Prop> := [];
      while readLen < buflen
        invariant 0 <= readLen <= |mem| && props == old(props) + found
        invariant Continues(goal, found, ParseBare(mem, buflen, readLen))
        decreases |mem| - readLen
      {
        ghost var more;
        ok, readLen, more := NextBare(mem, buflen, readLen, goal, found);
        if !ok {
          return false;
        }
        AssocProps(old(props), found, more);
        found := found + more;
      }
      return true;
    }

    /** One round of the loop of parse_rjv3_buf_to_prop_list, with outer headers. */
    method FramedField(mem: Bytes, buflen: int, at: nat) returns (ok: bool, next: int)
      requires at < buflen <= |mem|
      requires at + 8 <= buflen && HasMagic(mem, at + 2) ==> at + 8 + FramedSize(mem, buflen, at) <= |mem|
      modifies this
      ensures ok <==> at + 8 <= buflen && HasMagic(mem, at + 2)
      ensures !ok ==> props == old(props)
      ensures ok ==> var n := FramedSize(mem, buflen, at);
                     && at + 6 <= next == at + 8 + n <= |mem|
                     && props == old(props) + [MakeProp(mem[at + 6], Slice(mem, at + 8, n), n)]
    {
      var readLen := at;
      if readLen + 8 > buflen {
        return false, at;
      }
      var headerType := mem[readLen];
      readLen := readLen + 2;
      SliceIsMagic(mem, readLen);
      if mem[readLen..readLen + 4] != MAGIC {
        return false, at;
      }
      var ptype: Byte, len: int := mem[readLen + 4], mem[readLen + 5];
      readLen := readLen + 6;
      var n := len - 2;
      if headerType != 0x1a {
        var found := FindBytePattern(mem, readLen, buflen);
        n := if found >= 0 then found - 2 else buflen - readLen;
      }
      assert n == FramedSize(mem, buflen, at);
      var _ := Append(ptype, mem[readLen..], n);
      assert Slice(mem[readLen..], 0, n) == Slice(mem, readLen, n);
      return true, readLen + n;
    }

    method NextFramed(mem: Bytes, buflen: int, at: nat, ghost goal: Outcome, ghost found: seq<Prop>)
      returns (ok: bool, next: int, ghost more: seq<Prop>)
      requires at < buflen <= |mem| && Continues(goal, found, ParseFramed(mem, buflen, at))
      modifies this
      ensures props == old(props) + more
      ensures ok ==> at < next <= |mem| && Continues(goal, found + more, ParseFramed(mem, buflen, next))
      ensures !ok ==> more == [] && goal == Parsed(found, false)
    {
      FramedFits(mem, buflen, at);
      ok, next := FramedField(mem, buflen, at);
      more := [];
      if ok {
        ghost var n := FramedSize(mem, buflen, at);
        FramedStep(goal, found, mem, buflen, at);
        more := [MakeProp(mem[at + 6], Slice(mem, at + 8, n), n)];
      }
    }

    method ParseFramedBuf(mem: Bytes, buflen: int) returns (ok: bool)
      requires buflen <= |mem| && ParseFramed(mem, buflen, 0).Parsed?
      modifies this
      ensures props == old(props) + ParseFramed(mem, buflen, 0).props && ok == ParseFramed(mem, buflen, 0).ok
    {
      var readLen := 0;
      ghost var goal := ParseFramed(mem, buflen, 0);
      ghost var found: seq<Prop> := [];
      while readLen < buflen
        invariant 0 <= readLen <= |mem| && props == old(props) + found
        invariant Continues(goal, found, ParseFramed(mem, buflen, readLen))
        decreases |mem| - readLen
      {
        ghost var more;
        ok, readLen, more := NextFramed(mem, buflen, readLen, goal, found);
        if !ok {
          return false;
        }
        AssocProps(old(props), found, more);
        found := found + more;
      }
      return true;
    }
  }

  /** `rest` is what parsing still has to yield for `goal`, after `found`. */
  ghost predicate Continues(goal: Outcome, found: seq<Prop>, rest: Outcome) {
    goal.Parsed? && rest.Parsed? && goal.props == found + rest.props && goal.ok == rest.ok
  }

  lemma AssocProps(a: seq<Prop>, b: seq<Prop>, c: seq<Prop>)
    ensures (a + b) + c == a + (b + c)
  {
  }

  lemma BareFits(mem: Bytes, buflen: int, at: nat)
    requires at < buflen <= |mem| && ParseBare(mem, buflen, at).Parsed?
    ensures if at + 6 <= buflen && HasMagic(mem, at) then at + 6 + BareSize(mem, buflen, at) <= |mem|
            else ParseBare(mem, buflen, at) == Parsed([], false)
  {
  }

  lemma FramedFits(mem: Bytes, buflen: int, at: nat)
    requires at < buflen <= |mem| && ParseFramed(mem, buflen, at).Parsed?
    ensures if at + 8 <= buflen && HasMagic(mem, at + 2) then at + 8 + FramedSize(mem, buflen, at) <= |mem|
            else ParseFramed(mem, buflen, at) == Parsed([], false)
  {
  }

  lemma NextContinues(goal: Outcome, found: seq<Prop>, p: Prop, rest: Outcome)
    requires Continues(goal, found, Prepend(p, rest))
    ensures Continues(goal, found + [p], rest)
  {
  }

  lemma BareStep(goal: Outcome, found: seq<Prop>, mem: Bytes, buflen: int, at: nat)
    requires at + 6 <= buflen <= |mem| && HasMagic(mem, at)
    requires Continues(goal, found, ParseBare(mem, buflen, at))
    ensures var n := BareSize(mem, buflen, at);
            && 0 <= at + 6 + n <= |mem|
            && Continues(goal, found + [MakeProp(mem[at + 4], Slice(mem, at + 6, n), n)],
                         ParseBare(mem, buflen, at + 6 + n))
  {
    var n := BareSize(mem, buflen, at);
    NextContinues(goal, found, MakeProp(mem[at + 4], Slice(mem, at + 6, n), n), ParseBare(mem, buflen, at + 6 + n));
  }

  lemma FramedStep(goal: Outcome, found: seq<Prop>, mem: Bytes, buflen: int, at: nat)
    requires at + 8 <= buflen <= |mem| && HasMagic(mem, at + 2)
    requires Continues(goal, found, ParseFramed(mem, buflen, at))
    ensures var n := FramedSize(mem, buflen, at);
            && 0 <= at + 8 + n <= |mem|
            && Continues(goal, found + [MakeProp(mem[at + 6], Slice(mem, at + 8, n), n)],
                         ParseFramed(mem, buflen, at + 8 + n))
  {
    var n := FramedSize(mem, buflen, at);
    NextContinues(goal, found, MakeProp(mem[at + 6], Slice(mem, at + 8, n), n), ParseFramed(mem, buflen, at + 8 + n));
  }
}
