/**
 * Changing properties in place (modify_rjv3_prop, modify_rjv3_prop_list) and the trailer that
 * rjv3_append_priv builds from the result.
 */
module Rjv3Modify {
  import opened Octets
  import opened Rjv3Prop
  import opened Rjv3Codec

  /** lookup_data with rjv3_type_prop_compare: the first property of a type, or -1. */
  function FirstOfType(ps: seq<Prop>, ptype: Byte): (i: int)
    ensures -1 <= i < |ps|
    ensures i >= 0 ==> ps[i].ptype == ptype
    ensures forall k :: 0 <= k < (if i < 0 then |ps| else i) ==> ps[k].ptype != ptype
  {
    if ps == [] then -1
    else
      var i := FirstOfType(ps[..|ps| - 1], ptype);
      if i >= 0 then i else if ps[|ps| - 1].ptype == ptype then |ps| - 1 else -1
  }

  /** The last modification of a type, or -1. */
  function LastOfType(mods: seq<Prop>, ptype: Byte): (i: int)
    ensures -1 <= i < |mods|
    ensures i >= 0 ==> mods[i].ptype == ptype
    ensures forall k :: i < k < |mods| ==> mods[k].ptype != ptype
  {
    if mods == [] then -1
    else if mods[|mods| - 1].ptype == ptype then |mods| - 1
    else LastOfType(mods[..|mods| - 1], ptype)
  }

  /** The first `n` bytes, none if that is not positive. */
  function Front(content: Bytes, n: int): (r: Bytes)
    ensures n <= |content| ==> r == Slice(content, 0, n)
  {
    if n <= 0 then [] else if n < |content| then content[..n] else content
  }

  /** A property with new content; type and outer type stay. */
  function WithContent(p: Prop, content: Bytes, n: int): Prop {
    p.(headerLen := LowByte(n + 8), len := LowByte(n + 2), content := Front(content, n))
  }

  /** modify_rjv3_prop and its result, the change of the length byte. */
  function Modify(ps: seq<Prop>, ptype: Byte, content: Bytes, n: int): (seq<Prop>, int) {
    var i := FirstOfType(ps, ptype);
    if i < 0 then (ps, 0)
    else
      var p := WithContent(ps[i], content, n);
      (ps[i := p], p.len - ps[i].len)
  }

  /** modify_rjv3_prop_list */
  function ModifyAll(ps: seq<Prop>, mods: seq<Prop>): (r: (seq<Prop>, int))
    ensures |r.0| == |ps|
  {
    if mods == [] then (ps, 0)
    else
      var (before, delta) := ModifyAll(ps, mods[..|mods| - 1]);
      var m := mods[|mods| - 1];
      var (after, change) := Modify(before, m.ptype, m.content, ContentSize(m));
      (after, delta + change)
  }

  class OwnList {
    var props: seq<Prop>

    constructor (props: seq<Prop>)
      ensures this.props == props
    {
      this.props := props;
    }

    /** lookup_data by type */
    method Lookup(ptype: Byte) returns (i: int)
      ensures i == FirstOfType(props, ptype)
    {
      i := 0;
      while i < |props|
        invariant 0 <= i <= |props|
        invariant forall k :: 0 <= k < i ==> props[k].ptype != ptype
      {
        if props[i].ptype == ptype {
          return;
        }
        i := i + 1;
      }
      i := -1;
    }

    method ModifyProp(ptype: Byte, content: Bytes, n: int) returns (delta: int)
      modifies this
      ensures (props, delta) == Modify(old(props), ptype, content, n)
    {
      var i := Lookup(ptype);
      if i < 0 {
        return 0;
      }
      var before: int := props[i].len;
      props := props[i := WithContent(props[i], content, n)];
      delta := props[i].len - before;
    }

    method ModifyPropList(mods: seq<Prop>) returns (delta: int)
      modifies this
      ensures (props, delta) == ModifyAll(old(props), mods)
    {
      delta := 0;
      var i := 0;
      while i < |mods|
        invariant 0 <= i <= |mods| && (props, delta) == ModifyAll(old(props), mods[..i])
      {
        assert mods[..i + 1][..i] == mods[..i];
        var change := ModifyProp(mods[i].ptype, mods[i].content, ContentSize(mods[i]));
        delta := delta + change;
        i := i + 1;
      }
      assert mods[..i] == mods;
    }
  }

  // ---- What a list of modifications amounts to ----

  lemma {:induction false} SameTypesSameFirst(a: seq<Prop>, b: seq<Prop>, ptype: Byte)
    requires |a| == |b| && forall i :: 0 <= i < |a| ==> a[i].ptype == b[i].ptype
    ensures FirstOfType(a, ptype) == FirstOfType(b, ptype)
  {
    if a != [] {
      SameTypesSameFirst(a[..|a| - 1], b[..|b| - 1], ptype);
    }
  }

  /** The result, property by property: only the first of a type changes, and the last modification of a type wins. */
  function Changed(ps: seq<Prop>, mods: seq<Prop>, i: nat): Prop
    requires i < |ps|
  {
    var last := LastOfType(mods, ps[i].ptype);
    if FirstOfType(ps, ps[i].ptype) == i && last >= 0
    then WithContent(ps[i], mods[last].content, ContentSize(mods[last])) else ps[i]
  }

  lemma {:induction false} ModifyAllIsChanged(ps: seq<Prop>, mods: seq<Prop>)
    ensures forall i :: 0 <= i < |ps| ==> ModifyAll(ps, mods).0[i] == Changed(ps, mods, i)
  {
    if mods != [] {
      var init, m := mods[..|mods| - 1], mods[|mods| - 1];
      ModifyAllIsChanged(ps, init);
      var before := ModifyAll(ps, init).0;
      SameTypesSameFirst(ps, before, m.ptype);
      forall i | 0 <= i < |ps| ensures ModifyAll(ps, mods).0[i] == Changed(ps, mods, i) {
        assert before[i] == Changed(ps, init, i);
      }
    }
  }

  lemma {:induction false} TotalOfUpdate(ps: seq<Prop>, i: nat, p: Prop)
    requires i < |ps|
    ensures TotalSize(ps[i := p]) == TotalSize(ps) + p.len - ps[i].len
  {
    var init := ps[..|ps| - 1];
    if i == |ps| - 1 {
      assert ps[i := p][..|ps| - 1] == init;
    } else {
      TotalOfUpdate(init, i, p);
      assert ps[i := p][..|ps| - 1] == init[i := p];
    }
  }

  /** The returned difference is exactly how much the serialized list grows or shrinks. */
  lemma {:induction false} ModifyConservesSize(ps: seq<Prop>, mods: seq<Prop>)
    ensures TotalSize(ModifyAll(ps, mods).0) == TotalSize(ps) + ModifyAll(ps, mods).1
  {
    if mods != [] {
      ModifyConservesSize(ps, mods[..|mods| - 1]);
      var before, m := ModifyAll(ps, mods[..|mods| - 1]).0, mods[|mods| - 1];
      var i := FirstOfType(before, m.ptype);
      if i >= 0 {
        TotalOfUpdate(before, i, WithContent(before[i], m.content, ContentSize(m)));
      }
    }
  }

  lemma ChangedIsWellFormed(ps: seq<Prop>, mods: seq<Prop>, i: nat)
    requires i < |ps| && WellFormed(ps[i]) && AllWellFormed(mods)
    ensures WellFormed(Changed(ps, mods, i))
  {
    var last := LastOfType(mods, ps[i].ptype);
    if last >= 0 {
      assert mods[last] in mods;
    }
  }

  lemma ModifyKeepsWellFormed(ps: seq<Prop>, mods: seq<Prop>)
    requires AllWellFormed(ps) && AllWellFormed(mods)
    ensures AllWellFormed(ModifyAll(ps, mods).0)
  {
    ModifyAllIsChanged(ps, mods);
    var r := ModifyAll(ps, mods).0;
    forall i | 0 <= i < |r| ensures WellFormed(r[i]) {
      assert r[i] == Changed(ps, mods, i) && ps[i] in ps;
      ChangedIsWellFormed(ps, mods, i);
    }
  }

  /** How much longer the first property of each type gets; read off the two lists. */
  function Growth(ps: seq<Prop>, mods: seq<Prop>, n: nat): int
    requires n <= |ps|
  {
    if n == 0 then 0 else Growth(ps, mods, n - 1) + GrowthAt(ps, mods, n - 1)
  }

  /** The last modification of its type against the property at `i`, if that is the first of its type. */
  function GrowthAt(ps: seq<Prop>, mods: seq<Prop>, i: nat): int
    requires i < |ps|
  {
    var last := LastOfType(mods, ps[i].ptype);
    if FirstOfType(ps, ps[i].ptype) == i && last >= 0 then |mods[last].content| - |ps[i].content| else 0
  }

  lemma SizeOfChanged(ps: seq<Prop>, mods: seq<Prop>, i: nat)
    requires i < |ps| && WellFormed(ps[i]) && AllWellFormed(mods)
    ensures FullSize(Changed(ps, mods, i)) == FullSize(ps[i]) + GrowthAt(ps, mods, i)
  {
    var last := LastOfType(mods, ps[i].ptype);
    LengthByteFits(ps[i].ptype, ps[i].content);
    if last >= 0 {
      assert mods[last] in mods;
      LengthByteFits(mods[last].ptype, mods[last].content);
    }
  }

  lemma {:induction false} TotalOfChanged(ps: seq<Prop>, mods: seq<Prop>, after: seq<Prop>, n: nat)
    requires AllWellFormed(ps) && AllWellFormed(mods)
    requires n <= |ps| == |after| && forall i :: 0 <= i < |ps| ==> after[i] == Changed(ps, mods, i)
    ensures TotalSize(after[..n]) == TotalSize(ps[..n]) + Growth(ps, mods, n)
  {
    if n > 0 {
      TotalOfChanged(ps, mods, after, n - 1);
      assert after[..n][..n - 1] == after[..n - 1] && ps[..n][..n - 1] == ps[..n - 1];
      assert ps[n - 1] in ps;
      SizeOfChanged(ps, mods, n - 1);
    }
  }

  /** The returned difference, read off the two lists before the call. */
  lemma DeltaIsGrowth(ps: seq<Prop>, mods: seq<Prop>)
    requires AllWellFormed(ps) && AllWellFormed(mods)
    ensures ModifyAll(ps, mods).1 == Growth(ps, mods, |ps|)
  {
    var after := ModifyAll(ps, mods).0;
    ModifyAllIsChanged(ps, mods);
    TotalOfChanged(ps, mods, after, |ps|);
    assert after[..|ps|] == after && ps[..|ps|] == ps;
    ModifyConservesSize(ps, mods);
  }

  // ---- The trailer of rjv3_append_priv ----

  const FRAME_BUF_SIZE := 1512

  class Frame {
    var content: Bytes
    const bufferLen: nat

    constructor (bufferLen: nat)
      ensures content == [] && this.bufferLen == bufferLen
    {
      content, this.bufferLen := [], bufferLen;
    }

    /** append_to_frame: all or nothing */
    method Append(data: Bytes) returns (ok: bool)
      modifies this
      ensures ok <==> |old(content)| + |data| <= bufferLen
      ensures content == if ok then old(content) + data else old(content)
    {
      if |content| + |data| > bufferLen {
        return false;
      }
      content := content + data;
      ok := true;
    }
  }

  /** logoffReason, magic and a big-endian length */
  function Header(n: int): Bytes {
    [0x00, 0x00, 0x00, 0x13, 0x11, n / 256 % 256, n % 256]
  }

  /** The trailer as it should be: the length of all properties, those of the list, those of the command line. */
  function Trailer(list: seq<Prop>, cmd: seq<Prop>): Bytes {
    var body := SerializeAll(list) + SerializeAll(cmd);
    Header(|body|) + body
  }

  lemma {:induction false} SerializeConcat(a: seq<Prop>, b: seq<Prop>)
    ensures SerializeAll(a + b) == SerializeAll(a) + SerializeAll(b)
  {
    if b == [] {
      assert a + b == a;
    } else {
      SerializeConcat(a, b[..|b| - 1]);
      assert (a + b)[..|a + b| - 1] == a + b[..|b| - 1];
      Assoc(SerializeAll(a), SerializeAll(b[..|b| - 1]), Serialize(b[|b| - 1]));
    }
  }

  lemma HeaderTellsLength(n: int)
    requires 0 <= n < 0x1_0000
    ensures 256 * (Header(n)[5] as int) + (Header(n)[6] as int) == n
    ensures Header(n)[..5] == [0x00, 0x00, 0x00, 0x13, 0x11]
  {
  }

  lemma DropHeader(n: int, body: Bytes)
    ensures (Header(n) + body)[7..] == body && (Header(n) + body)[..7] == Header(n)
  {
  }

  /**
   * Behind its seven-byte header, a right trailer parses into the properties it was made of, and below 64 KiB the
   * header's last two bytes are the length of what is behind it.
   */
  lemma TrailerParses(list: seq<Prop>, cmd: seq<Prop>)
    requires AllWellFormed(list) && AllWellFormed(cmd)
    ensures var t := Trailer(list, cmd);
            var body := t[7..];
            && Parse(body, |body|, false) == Parsed(list + cmd, true)
            && (|body| < 0x1_0000 ==>
                  t[..5] == [0x00, 0x00, 0x00, 0x13, 0x11] && 256 * (t[5] as int) + (t[6] as int) == |body|)
  {
    var body := SerializeAll(list) + SerializeAll(cmd);
    DropHeader(|body|, body);
    if |body| < 0x1_0000 {
      HeaderTellsLength(|body|);
      assert Trailer(list, cmd)[..5] == Header(|body|)[..5];
    }
    SerializeConcat(list, cmd);
    FramedRoundTrip(list + cmd);
  }

  // ---- What is sent instead when the sizes change ----

  /** The bytes in front of the command line's properties: cut short, or followed by zeros of the buffer. */
  function Displaced(list: seq<Prop>, delta: int): (r: Bytes)
    requires 0 <= |SerializeAll(list)| + delta
    ensures |r| == |SerializeAll(list)| + delta
  {
    var s := SerializeAll(list);
    if delta <= 0 then s[..|s| + delta] else s + seq(delta, _ => 0)
  }

  /** What rjv3_append_priv puts into the frame. */
  function Sent(list: seq<Prop>, delta: int, cmd: seq<Prop>): Bytes
    requires 0 <= |SerializeAll(list)| + delta
  {
    var body := Displaced(list, delta) + SerializeAll(cmd);
    Header(|body|) + body
  }

  /**
   * The running length starts with what the modifications added and the whole modified list is added to it, so a
   * difference is counted twice.  What is sent is the right trailer if and only if, over the types in both lists,
   * the last modifications are together as long as the first properties they replace.
   */
  lemma SentIsTrailer(ps: seq<Prop>, mods: seq<Prop>, cmd: seq<Prop>)
    requires AllWellFormed(ps) && AllWellFormed(mods)
    requires 0 <= |SerializeAll(ModifyAll(ps, mods).0)| + ModifyAll(ps, mods).1
    ensures var (list, delta) := ModifyAll(ps, mods);
            Sent(list, delta, cmd) == Trailer(list, cmd) <==> Growth(ps, mods, |ps|) == 0
  {
    DeltaIsGrowth(ps, mods);
    var (list, delta) := ModifyAll(ps, mods);
    if delta == 0 {
      assert Displaced(list, 0) == SerializeAll(list);
    } else {
      assert |Sent(list, delta, cmd)| != |Trailer(list, cmd)|;
    }
  }

  /**
   * One property of one byte, modified to two bytes: the length in the header is one too large, a zero byte
   * follows the property, and the receiver's parse of the body fails.
   */
  lemma OneByteLonger(p: Prop, m: Prop)
    requires p == MakeProp(0x6f, [1], 1) && m == MakeProp(0x6f, [1, 2], 2)
    ensures ModifyAll([p], [m]) == ([m], 1)
    ensures Sent([m], 1, []) == Header(11) + (Serialize(m) + [0]) && |Serialize(m)| == 10
    ensures Parse(Serialize(m) + [0], 11, false) == Parsed([m], false)
  {
    OneModified(p, m);
    SentLonger(m);
    ShortTail(m, Serialize(m) + [0]);
  }

  lemma SentLonger(m: Prop)
    requires |m.content| == 2
    ensures |Serialize(m)| == 10 && Sent([m], 1, []) == Header(11) + (Serialize(m) + [0])
  {
    var body := Serialize(m) + [0];
    assert SerializeAll([m]) == Serialize(m) by {
      assert [m][..0] == [];
    }
    assert Displaced([m], 1) == body && SerializeAll([]) == [] && body + [] == body;
  }

  lemma OneModified(p: Prop, m: Prop)
    requires p.ptype == m.ptype && m == WithContent(p, m.content, ContentSize(m))
    ensures ModifyAll([p], [m]) == ([m], m.len - p.len)
  {
    assert [m][..0] == [] && [p][..0] == [];
    assert FirstOfType([p], m.ptype) == 0;
    assert [p][0 := m] == [m];
  }

  lemma ShortTail(m: Prop, body: Bytes)
    requires WellFormed(m) && |m.content| == 2 && body == Serialize(m) + [0]
    ensures Parse(body, 11, false) == Parsed([m], false)
  {
    assert body[0..] == body;
    var tail := FramedAt(body, 10);
    FramedFirst(body, 0, 10, m, [0], FramedAt(body, 0), tail);
    assert tail == Parsed([], false);
    assert [m] + [] == [m];
  }

  /** The end of rjv3_append_priv, given enough room. */
  method AppendTrailer(common: OwnList, mods: seq<Prop>, cmd: seq<Prop>, frame: Frame) returns (ok: bool)
    requires AllWellFormed(common.props) && AllWellFormed(mods)
    requires AllWellFormed(cmd)
    requires var (list, delta) := ModifyAll(common.props, mods);
             && |SerializeAll(list)| <= FRAME_BUF_SIZE && 0 <= |SerializeAll(list)| + delta
             && |SerializeAll(list)| + delta + |SerializeAll(cmd)| <= FRAME_BUF_SIZE
             && |frame.content| + 7 + |SerializeAll(list)| + delta + |SerializeAll(cmd)| <= frame.bufferLen
    modifies common, frame
    ensures ok <==> old(common.props) != []
    ensures !ok ==> frame.content == old(frame.content)
    ensures var (list, delta) := ModifyAll(old(common.props), mods);
            ok ==> frame.content == old(frame.content) + Sent(list, delta, cmd)
  {
    ghost var list := ModifyAll(common.props, mods).0;
    ModifyKeepsWellFormed(common.props, mods);
    SizeIsTotal(list);
    var delta := common.ModifyPropList(mods);
    var buf := new Byte[FRAME_BUF_SIZE](_ => 0);
    var single := AppendWithRoom(common.props, buf, 0, FRAME_BUF_SIZE);
    if single <= 0 {
      return false;
    }
    var propsLen := AppendCommand(buf, single, delta, list, cmd);
    ok := AppendFramed(frame, buf, propsLen);
  }

  lemma DisplacedInBuffer(buf: array<Byte>, single: nat, delta: int, list: seq<Prop>)
    requires single <= buf.Length && 0 <= single + delta <= buf.Length && buf[..single] == SerializeAll(list)
    requires forall k :: single <= k < buf.Length ==> buf[k] == 0
    ensures |SerializeAll(list)| == single && buf[..single + delta] == Displaced(list, delta)
  {
    if delta <= 0 {
      assert buf[..single + delta] == buf[..single][..single + delta];
    } else {
      assert buf[..single + delta] == buf[..single] + buf[single..single + delta];
      assert buf[single..single + delta] == seq(delta, _ => 0);
    }
  }

  /** The properties of the command line go behind the running length, which has the difference added. */
  method AppendCommand(buf: array<Byte>, single: nat, delta: int, ghost list: seq<Prop>, cmd: seq<Prop>)
    returns (propsLen: nat)
    requires AllWellFormed(cmd)
    requires buf.Length == FRAME_BUF_SIZE && single <= FRAME_BUF_SIZE && buf[..single] == SerializeAll(list)
    requires forall k :: single <= k < buf.Length ==> buf[k] == 0
    requires 0 <= single + delta && single + delta + |SerializeAll(cmd)| <= FRAME_BUF_SIZE
    modifies buf
    ensures |SerializeAll(list)| == single && propsLen <= buf.Length
    ensures buf[..propsLen] == Displaced(list, delta) + SerializeAll(cmd)
  {
    DisplacedInBuffer(buf, single, delta, list);
    propsLen := delta + single;
    var more := AppendWithRoom(cmd, buf, propsLen, FRAME_BUF_SIZE - propsLen);
    propsLen := propsLen + more;
  }

  method AppendFramed(frame: Frame, buf: array<Byte>, propsLen: nat) returns (ok: bool)
    requires propsLen <= buf.Length && |frame.content| + 7 + propsLen <= frame.bufferLen
    modifies frame
    ensures ok && frame.content == old(frame.content) + (Header(propsLen) + buf[..propsLen])
  {
    var header := [0x00, 0x00, 0x00, 0x13, 0x11, propsLen / 256 % 256, propsLen % 256];
    ok := frame.Append(header);
    ok := frame.Append(buf[..propsLen]);
    Assoc(old(frame.content), header, buf[..propsLen]);
  }
}
