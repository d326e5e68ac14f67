/**
 * The --rj-option text of packet_plugin_rjv3.c, with char2hex and hex2char of util/misc.c: reading one with
 * strtok, and writing one into the configuration.
 */
module RjOption {
  import opened CStrings
  import opened Octets
  import opened Rjv3Prop

  const COLON: Byte := 58
  const LETTER_R: Byte := 114
  const MAX_PROP_LEN := 200

  // ---- Hexadecimal ----

  function ToLower(c: Byte): Byte {
    if 65 <= c <= 90 then c + 32 else c
  }

  /** LOWER2HEX of a signed char */
  function DigitValue(c: Byte): int {
    var l := ToLower(c);
    var signed := if l >= 128 then l - 256 else l;
    if signed >= 97 then 10 + (signed - 97) else signed - 48
  }

  /** char2hex: a second character of NUL means there is only one digit; anything else wraps to a byte. */
  function Char2Hex(c0: Byte, c1: Byte): Byte {
    if c1 == NUL then DigitValue(c0) % 256 else (16 * DigitValue(c0) + DigitValue(c1)) % 256
  }

  /** HEX2LOWER */
  function HexDigit(d: nat): Byte
    requires d < 16
  {
    if d >= 10 then d - 10 + 97 else d + 48
  }

  lemma DigitBack(d: nat)
    requires d < 16
    ensures DigitValue(HexDigit(d)) == d && HexDigit(d) != NUL
  {
  }

  lemma HexRoundTrip(b: Byte)
    ensures Char2Hex(HexDigit(b / 16), HexDigit(b % 16)) == b
  {
    DigitBack(b / 16);
    DigitBack(b % 16);
  }

  /** Hexadecimal digits count the same in upper and in lower case, and decimal ones as they are. */
  lemma DigitsInAnyCase(d: nat)
    requires d < 16
    ensures d < 10 ==> DigitValue(48 + d) == d
    ensures d >= 10 ==> DigitValue(65 + d - 10) == d && DigitValue(97 + d - 10) == d
  {
  }

  /** A lone digit is a byte of its own. */
  lemma LoneDigit(d: nat)
    requires d < 16
    ensures Char2Hex(HexDigit(d), 0) == d
  {
  }

  function HexByte(b: Byte): Bytes {
    [HexDigit(b / 16), HexDigit(b % 16)]
  }

  function Hex(content: Bytes): (r: Bytes)
    ensures |r| == 2 * |content|
  {
    if content == [] then [] else Hex(content[..|content| - 1]) + HexByte(content[|content| - 1])
  }

  lemma {:induction false} HexAt(content: Bytes, k: nat)
    requires k < |content|
    ensures Hex(content)[2 * k] == HexDigit(content[k] / 16) && Hex(content)[2 * k + 1] == HexDigit(content[k] % 16)
  {
    if k < |content| - 1 {
      HexAt(content[..|content| - 1], k);
    }
  }

  // ---- Reading ----

  datatype CmdOption = BadFormat | CmdOption(replace: bool, ptype: Byte, content: Bytes)

  function SkipColons(s: Bytes): (t: Bytes)
    ensures t != [] ==> t[0] != COLON
    ensures |t| <= |s| && t == s[|s| - |t|..]
  {
    if s != [] && s[0] == COLON then SkipColons(s[1..]) else s
  }

  /** What is left after the colon at `e`, if there is one. */
  function After(t: Bytes, e: nat): Bytes {
    if e < |t| then t[e + 1..] else []
  }

  /** What is left after the token `t` starts with. */
  function AfterToken(t: Bytes): Bytes {
    After(t, Find(t, COLON))
  }

  /** The byte char2hex finds at a place of a token: at the end it is the NUL. */
  function At(token: Bytes, i: nat): Byte {
    if i < |token| then token[i] else NUL
  }

  /** Byte `k` of the content: char2hex of the two characters at its place. */
  function TokenByte(token: Bytes, k: nat): Byte {
    Char2Hex(At(token, 2 * k), At(token, 2 * k + 1))
  }

  function PairsOf(token: Bytes, n: nat): (r: Bytes)
    ensures |r| == n && forall k :: 0 <= k < n ==> r[k] == TokenByte(token, k)
  {
    seq(n, k requires 0 <= k < n => TokenByte(token, k))
  }

  function ContentLength(token: Bytes): nat {
    ((if |token| < MAX_PROP_LEN then |token| else MAX_PROP_LEN) + 1) / 2
  }

  function Assemble(first: Bytes, second: Bytes, rest: Bytes): CmdOption {
    CmdOption(rest != [] && rest[0] == LETTER_R, TokenByte(first, 0), PairsOf(second, ContentLength(second)))
  }

  /** append_rj_cmdline_opt up to the appending */
  function ParseOption(opt: Bytes): CmdOption {
    var t1 := SkipColons(opt);
    var t2 := SkipColons(AfterToken(t1));
    var t3 := SkipColons(AfterToken(t2));
    if t1 == [] || t2 == [] then BadFormat else Assemble(t1[..Find(t1, COLON)], t2[..Find(t2, COLON)], t3)
  }

  // ---- Writing ----

  /** The text rjv3_save_one_prop writes for a property with this content */
  function Text(replace: bool, ptype: Byte, content: Bytes): Bytes {
    Hex([ptype]) + [COLON] + Hex(content) + if replace then [COLON, LETTER_R] else []
  }

  /** 6f:00a1:r */
  lemma TextExample(content: Bytes)
    requires content == [0x00, 0xa1]
    ensures Text(true, 0x6f, content) == [54, 102, 58, 48, 48, 97, 49, 58, 114]
    ensures Text(false, 0x6f, content) == [54, 102, 58, 48, 48, 97, 49]
  {
    HexOfOne(0x6f);
    HexOfOne(0x00);
    assert content[..1] == [0x00];
    assert Hex(content) == Hex([0x00]) + HexByte(0xa1);
  }

  lemma HexOfOne(b: Byte)
    ensures Hex([b]) == HexByte(b)
  {
    assert [b][..0] == [];
  }

  /** The size it allocates; `len` is the length field of the property. */
  function Allocated(replace: bool, len: Byte): nat {
    2 + 1 + len * 2 + (if replace then 2 else 0) + 1
  }

  /** The text and its NUL fit, for every property: the length field counts two bytes more than the content has. */
  lemma TextFits(replace: bool, ptype: Byte, content: Bytes)
    requires |content| <= 253
    ensures |Text(replace, ptype, content)| + 1 == Allocated(replace, MakeProp(ptype, content, |content|).len) - 4
  {
  }

  // ---- The round trip ----

  lemma {:induction false} HexHasNoColon(content: Bytes)
    ensures Without(Hex(content), COLON)
  {
    if content != [] {
      HexHasNoColon(content[..|content| - 1]);
    }
  }

  lemma LastToken(token: Bytes)
    requires Without(token, COLON)
    ensures SkipColons(token) == token && Find(token, COLON) == |token| && AfterToken(token) == []
  {
  }

  /** A token without colons in front of a colon. */
  lemma TokenAt(token: Bytes, rest: Bytes)
    requires Without(token, COLON) && token != []
    ensures var s := token + [COLON] + rest;
            SkipColons(s) == s && Find(s, COLON) == |token| && s[..|token|] == token && AfterToken(s) == rest
  {
    var s := token + [COLON] + rest;
    assert s[0] == token[0];
    assert forall j :: 0 <= j < |token| ==> s[j] == token[j];
    FirstAt(s, COLON, |token|);
    assert s[|token| + 1..] == rest;
  }

  lemma PairAt(content: Bytes, k: nat)
    requires k < |content|
    ensures TokenByte(Hex(content), k) == content[k]
  {
    HexAt(content, k);
    HexRoundTrip(content[k]);
  }

  /** At most 100 bytes are read. */
  function Cut(content: Bytes): Bytes {
    if |content| <= 100 then content else content[..100]
  }

  lemma ContentOfToken(token: Bytes, content: Bytes)
    requires |token| == 2 * |content| && forall k :: 0 <= k < |content| ==> TokenByte(token, k) == content[k]
    ensures PairsOf(token, ContentLength(token)) == Cut(content)
  {
    var n := ContentLength(token);
    assert n == if |content| <= 100 then |content| else 100;
    assert PairsOf(token, n) == content[..n];
  }

  lemma ContentOfHex(content: Bytes)
    ensures PairsOf(Hex(content), ContentLength(Hex(content))) == Cut(content)
  {
    forall k | 0 <= k < |content|
      ensures TokenByte(Hex(content), k) == content[k]
    {
      PairAt(content, k);
    }
    ContentOfToken(Hex(content), content);
  }

  function Tail(replace: bool, content: Bytes): Bytes {
    Hex(content) + if replace then [COLON, LETTER_R] else []
  }

  lemma SecondTokenReplace(content: Bytes)
    requires content != []
    ensures var s := Tail(true, content);
            SkipColons(s) == s != [] && s[..Find(s, COLON)] == Hex(content) && SkipColons(AfterToken(s)) == [LETTER_R]
  {
    HexHasNoColon(content);
    TokenAt(Hex(content), [LETTER_R]);
    assert Tail(true, content) == Hex(content) + [COLON] + [LETTER_R];
  }

  lemma SecondTokenAppend(content: Bytes)
    requires content != []
    ensures var s := Tail(false, content);
            SkipColons(s) == s != [] && s[..Find(s, COLON)] == Hex(content) && SkipColons(AfterToken(s)) == []
  {
    HexHasNoColon(content);
    LastToken(Hex(content));
    assert Tail(false, content) == Hex(content) == Hex(content)[..|Hex(content)|];
  }

  lemma FirstToken(replace: bool, ptype: Byte, content: Bytes)
    ensures var s := Text(replace, ptype, content);
            && SkipColons(s) == s && s[..Find(s, COLON)] == Hex([ptype]) && s != []
            && AfterToken(s) == Tail(replace, content)
  {
    HexHasNoColon([ptype]);
    TokenAt(Hex([ptype]), Tail(replace, content));
    assert Text(replace, ptype, content) == Hex([ptype]) + [COLON] + Tail(replace, content);
  }

  lemma AssembleText(ptype: Byte, content: Bytes, rest: Bytes)
    ensures Assemble(Hex([ptype]), Hex(content), rest)
         == CmdOption(rest != [] && rest[0] == LETTER_R, ptype, Cut(content))
  {
    PairAt([ptype], 0);
    ContentOfHex(content);
  }

  lemma ParsePieces(opt: Bytes, t2: Bytes, t3: Bytes, first: Bytes, second: Bytes)
    requires SkipColons(opt) == opt != [] && opt[..Find(opt, COLON)] == first
    requires SkipColons(AfterToken(opt)) == t2 != [] && t2[..Find(t2, COLON)] == second
    requires SkipColons(AfterToken(t2)) == t3
    ensures ParseOption(opt) == Assemble(first, second, t3)
  {
  }

  /** Two tokens and a third that begins with `c`: the option replaces if and only if that is the letter r. */
  lemma MarkIsFirstLetter(first: Bytes, second: Bytes, third: Bytes)
    requires Without(first, 58) && Without(second, 58) && first != [] && second != [] && third != [] && third[0] != 58
    ensures ParseOption(first + [58] + (second + [58] + third))
         == CmdOption(third[0] == 114, TokenByte(first, 0), PairsOf(second, ContentLength(second)))
  {
    var rest := second + [58] + third;
    TokenAt(first, rest);
    TokenAt(second, third);
    assert SkipColons(third) == third;
    ParsePieces(first + [58] + rest, rest, third, first, second);
  }

  lemma ParseVia(opt: Bytes, tail: Bytes, rest: Bytes, ptype: Byte, content: Bytes)
    requires SkipColons(opt) == opt != [] && opt[..Find(opt, COLON)] == Hex([ptype]) && AfterToken(opt) == tail
    requires SkipColons(tail) == tail != [] && tail[..Find(tail, COLON)] == Hex(content)
    requires SkipColons(AfterToken(tail)) == rest
    ensures ParseOption(opt) == CmdOption(rest != [] && rest[0] == LETTER_R, ptype, Cut(content))
  {
    ParsePieces(opt, tail, rest, Hex([ptype]), Hex(content));
    AssembleText(ptype, content, rest);
  }

  lemma ParseText(replace: bool, ptype: Byte, content: Bytes)
    requires content != []
    ensures ParseOption(Text(replace, ptype, content)) == CmdOption(replace, ptype, Cut(content))
  {
    FirstToken(replace, ptype, content);
    if replace {
      SecondTokenReplace(content);
    } else {
      SecondTokenAppend(content);
    }
    ParseVia(Text(replace, ptype, content), Tail(replace, content), if replace then [LETTER_R] else [], ptype, content);
  }

  lemma SkipsOneColon(token: Bytes)
    requires Without(token, COLON)
    ensures SkipColons([COLON] + token) == token
  {
    assert ([COLON] + token)[1..] == token;
    LastToken(token);
  }

  /** A token without colons that is all there is. */
  lemma WholeToken(token: Bytes)
    requires Without(token, COLON)
    ensures token[..Find(token, COLON)] == token && SkipColons(AfterToken(token)) == []
  {
    LastToken(token);
  }

  /** The letter of the mark, read as a byte. */
  lemma MarkIsByte(token: Bytes)
    requires token == [LETTER_R]
    ensures PairsOf(token, ContentLength(token)) == [0x1b]
  {
    assert ContentLength(token) == 1 && TokenByte(token, 0) == 0x1b;
  }

  lemma LoneMark(token: Bytes)
    requires token == [LETTER_R]
    ensures SkipColons([COLON] + token) == token && token[..Find(token, COLON)] == token
    ensures SkipColons(AfterToken(token)) == [] && PairsOf(token, ContentLength(token)) == [0x1b]
  {
    SkipsOneColon(token);
    WholeToken(token);
    MarkIsByte(token);
  }

  lemma NoSecondToken(opt: Bytes)
    requires SkipColons(opt) == opt && AfterToken(opt) == []
    ensures ParseOption(opt) == BadFormat
  {
  }

  lemma AssembleMark(ptype: Byte, token: Bytes)
    requires token == [LETTER_R]
    ensures Assemble(Hex([ptype]), token, []) == CmdOption(false, ptype, [0x1b])
  {
    LoneMark(token);
    PairAt([ptype], 0);
  }

  lemma MarkAsContent(opt: Bytes, ptype: Byte, token: Bytes)
    requires SkipColons(opt) == opt != [] && opt[..Find(opt, COLON)] == Hex([ptype])
    requires token == [LETTER_R] && AfterToken(opt) == [COLON] + token
    ensures ParseOption(opt) == CmdOption(false, ptype, [0x1b])
  {
    LoneMark(token);
    ParsePieces(opt, token, [], Hex([ptype]), token);
    AssembleMark(ptype, token);
  }

  lemma EmptyTail(replace: bool)
    ensures Tail(replace, []) == if replace then [COLON] + [LETTER_R] else []
  {
  }

  /** A property without content does not come back: it is refused, or read as the append of one byte 0x1b. */
  lemma EmptyContent(replace: bool, ptype: Byte)
    ensures ParseOption(Text(replace, ptype, []))
         == if replace then CmdOption(false, ptype, [0x1b]) else BadFormat
  {
    var opt := Text(replace, ptype, []);
    FirstToken(replace, ptype, []);
    EmptyTail(replace);
    if replace {
      MarkAsContent(opt, ptype, [LETTER_R]);
    } else {
      NoSecondToken(opt);
    }
  }

  /** The saved text gives back type, content and list exactly if the content has 1 to 100 bytes. */
  lemma SavedOptionRoundTrip(replace: bool, ptype: Byte, content: Bytes)
    ensures ParseOption(Text(replace, ptype, content)) == CmdOption(replace, ptype, content) <==> 1 <= |content| <= 100
  {
    if content == [] {
      EmptyContent(replace, ptype);
    } else {
      ParseText(replace, ptype, content);
    }
  }

  // ---- The program ----

  /** hex2char */
  method Hex2Char(hex: Byte, out: array<Byte>, at: nat)
    requires at + 2 <= out.Length
    modifies out
    ensures out[..] == old(out[..at]) + HexByte(hex) + old(out[at + 2..])
  {
    out[at] := HexDigit(hex / 16);
    out[at + 1] := HexDigit(hex % 16);
  }

  /** The string from `from` to its NUL at `n`. */
  ghost predicate Rest(arg: array<Byte>, from: nat, n: nat, s: Bytes)
    reads arg
  {
    from <= n < arg.Length && arg[n] == NUL && arg[from..n] == s && Without(s, NUL)
  }

  lemma RestAt(arg: array<Byte>, from: nat, n: nat, s: Bytes)
    requires Rest(arg, from, n, s)
    ensures arg[from] == At(s, 0)
    ensures s != [] ==> Rest(arg, from + 1, n, s[1..])
  {
    if s != [] {
      assert arg[from + 1..n] == s[1..];
    }
  }

  lemma SkipOne(arg: array<Byte>, i: nat, n: nat, t: Bytes)
    requires Rest(arg, i, n, t)
    ensures if arg[i] == COLON then t != [] && SkipColons(t) == SkipColons(t[1..]) && Rest(arg, i + 1, n, t[1..])
            else SkipColons(t) == t
  {
    RestAt(arg, i, n, t);
  }

  /** strtok skips the colons in front of a token. */
  method SkipDelimiters(arg: array<Byte>, from: nat, ghost n: nat, ghost s: Bytes) returns (i: nat)
    requires Rest(arg, from, n, s)
    ensures Rest(arg, i, n, SkipColons(s))
  {
    i := from;
    ghost var t := s;
    while arg[i] == COLON
      invariant Rest(arg, i, n, t) && SkipColons(t) == SkipColons(s)
      decreases |t|
    {
      SkipOne(arg, i, n, t);
      i := i + 1;
      t := t[1..];
    }
    SkipOne(arg, i, n, t);
  }

  /** strtok looks for the end of the token. */
  method SkipToken(arg: array<Byte>, from: nat, ghost n: nat, ghost t: Bytes) returns (i: nat)
    requires Rest(arg, from, n, t)
    ensures i == from + Find(t, COLON)
  {
    i := from;
    while arg[i] != NUL && arg[i] != COLON
      invariant from <= i <= n && forall k :: 0 <= k < i - from ==> t[k] != COLON
      decreases n - i
    {
      assert t[i - from] == arg[i];
      i := i + 1;
    }
    if i < n {
      assert t[i - from] == arg[i];
      FirstAt(t, COLON, i - from);
    }
  }

  lemma WithoutParts(t: Bytes, e: nat)
    requires e <= |t| && Without(t, NUL)
    ensures Without(t[..e], NUL) && Without(t[e..], NUL)
  {
    forall i | 0 <= i < |t| - e
      ensures t[e..][i] != NUL
    {
      assert t[e..][i] == t[e + i];
    }
  }

  lemma TokenInside(arg: array<Byte>, start: nat, n: nat, t: Bytes, e: nat)
    requires Rest(arg, start, n, t) && e < |t| && t[e] == COLON
    ensures arg[start + e] == COLON && arg[start..start + e] == t[..e] && Without(t[..e], NUL)
    ensures Rest(arg, start + e + 1, n, t[e + 1..])
  {
    assert t[e] == arg[start + e];
    assert arg[start + e + 1..n] == t[e + 1..];
    WithoutParts(t, e);
    WithoutParts(t, e + 1);
  }

  /** The colon behind a token becomes a NUL. */
  method EndToken(arg: array<Byte>, start: nat, end: nat, ghost n: nat, ghost t: Bytes, ghost e: nat)
    returns (next: nat)
    requires Rest(arg, start, n, t) && end == start + e && e <= |t| && (e < |t| ==> t[e] == COLON)
    modifies arg
    ensures Rest(arg, start, end, t[..e]) && Rest(arg, next, n, After(t, e)) && end <= next
    ensures arg[..start] == old(arg[..start])
  {
    if e < |t| {
      TokenInside(arg, start, n, t, e);
    } else {
      assert t[..e] == t;
    }
    next := end;
    if arg[end] == COLON {
      arg[end] := NUL;
      assert arg[start..end] == old(arg[start..end]) && arg[end + 1..n] == old(arg[end + 1..n]);
      next := end + 1;
    }
  }

  /**
   * strtok: `from` is where it looks; the colon behind the token becomes a NUL, and the next call looks from
   * `next`.  Nothing is found if the text is only colons.
   */
  method StrTok(arg: array<Byte>, from: nat, ghost n: nat, ghost s: Bytes)
    returns (found: bool, start: nat, ghost end: nat, next: nat)
    requires Rest(arg, from, n, s)
    modifies arg
    ensures var t := SkipColons(s);
            && found == (t != []) && Rest(arg, start, end, t[..Find(t, COLON)])
            && Rest(arg, next, n, AfterToken(t)) && from <= start && end <= next
    ensures arg[..start] == old(arg[..start])
  {
    start := SkipDelimiters(arg, from, n, s);
    ghost var t := SkipColons(s);
    RestAt(arg, start, n, t);
    found := arg[start] != NUL;
    var stop := SkipToken(arg, start, n, t);
    end := stop;
    next := EndToken(arg, start, stop, n, t, Find(t, COLON));
  }

  /** strnlen(_split, MAX_PROP_LEN), rounded up to pairs */
  method PairCount(arg: array<Byte>, start: nat, ghost end: nat, ghost token: Bytes) returns (n: nat)
    requires Rest(arg, start, end, token)
    ensures n == ContentLength(token)
  {
    n := 0;
    while n < MAX_PROP_LEN && arg[start + n] != NUL
      invariant n <= |token| && n <= MAX_PROP_LEN && start + n <= end
    {
      n := n + 1;
    }
    if n % 2 == 1 {
      n := n + 1;
    }
    n := n / 2;
  }

  /** char2hex at position `k` of the token */
  method ReadPair(arg: array<Byte>, start: nat, k: nat, ghost end: nat, ghost token: Bytes) returns (b: Byte)
    requires Rest(arg, start, end, token) && 2 * k < |token|
    ensures b == TokenByte(token, k)
  {
    assert arg[start + 2 * k] == token[2 * k];
    assert 2 * k + 1 < |token| ==> arg[start + 2 * k + 1] == token[2 * k + 1];
    b := Char2Hex(arg[start + 2 * k], arg[start + 2 * k + 1]);
  }

  method ReadContent(arg: array<Byte>, start: nat, ghost end: nat, ghost token: Bytes) returns (content: Bytes)
    requires Rest(arg, start, end, token)
    ensures content == PairsOf(token, ContentLength(token))
  {
    var n := PairCount(arg, start, end, token);
    var buf := new Byte[n](_ => 0);
    var pos := 0;
    while pos < n
      invariant pos <= n && forall k :: 0 <= k < pos ==> buf[k] == TokenByte(token, k)
    {
      buf[pos] := ReadPair(arg, start, pos, end, token);
      pos := pos + 1;
    }
    content := buf[..];
  }

  lemma TokenIsNotEmpty(t: Bytes)
    requires t != [] && t == SkipColons(t)
    ensures t[..Find(t, COLON)] != []
  {
  }

  lemma {:induction false} SkipTwice(s: Bytes)
    ensures SkipColons(SkipColons(s)) == SkipColons(s)
  {
    if s != [] && s[0] == COLON {
      SkipTwice(s[1..]);
    }
  }

  /** The first strtok */
  method ReadType(arg: array<Byte>, from: nat, ghost n: nat, ghost s: Bytes)
    returns (found: bool, ptype: Byte, next: nat)
    requires Rest(arg, from, n, s)
    modifies arg
    ensures var t := SkipColons(s);
            && found == (t != []) && Rest(arg, next, n, AfterToken(t))
            && (found ==> ptype == TokenByte(t[..Find(t, COLON)], 0))
  {
    var start;
    ghost var end;
    found, start, end, next := StrTok(arg, from, n, s);
    ptype := 0;
    if found {
      ghost var t := SkipColons(s);
      SkipTwice(s);
      TokenIsNotEmpty(t);
      ptype := ReadPair(arg, start, 0, end, t[..Find(t, COLON)]);
    }
  }

  /** The second strtok */
  method ReadSecond(arg: array<Byte>, from: nat, ghost n: nat, ghost s: Bytes)
    returns (found: bool, content: Bytes, next: nat)
    requires Rest(arg, from, n, s)
    modifies arg
    ensures var t := SkipColons(s);
            && found == (t != []) && Rest(arg, next, n, AfterToken(t))
            && (found ==> var second := t[..Find(t, COLON)]; content == PairsOf(second, ContentLength(second)))
  {
    var start;
    ghost var end;
    found, start, end, next := StrTok(arg, from, n, s);
    content := [];
    if found {
      ghost var t := SkipColons(s);
      content := ReadContent(arg, start, end, t[..Find(t, COLON)]);
    }
  }

  /** The third strtok, and the test for "r" */
  method ReadMark(arg: array<Byte>, from: nat, ghost n: nat, ghost s: Bytes) returns (replace: bool)
    requires Rest(arg, from, n, s)
    modifies arg
    ensures var t := SkipColons(s); replace == (t != [] && t[0] == LETTER_R)
  {
    var found, start, end, next := StrTok(arg, from, n, s);
    if found {
      ghost var t := SkipColons(s);
      SkipTwice(s);
      TokenIsNotEmpty(t);
      RestAt(arg, start, end, t[..Find(t, COLON)]);
    }
    replace := found && arg[start] == LETTER_R;
  }

  method ReadOption(opt: Bytes) returns (r: CmdOption)
    requires Without(opt, NUL)
    ensures r == ParseOption(opt)
  {
    var arg := new Byte[|opt| + 1](i requires 0 <= i => if i < |opt| then opt[i] else NUL);
    assert arg[0..|opt|] == opt;
    var found, ptype, next := ReadType(arg, 0, |opt|, opt);
    if !found {
      return BadFormat;
    }
    ghost var s2 := AfterToken(SkipColons(opt));
    var content;
    found, content, next := ReadSecond(arg, next, |opt|, s2);
    if !found {
      return BadFormat;
    }
    var replace := ReadMark(arg, next, |opt|, AfterToken(SkipColons(s2)));
    r := CmdOption(replace, ptype, content);
  }

  class Options {
    var cmdPropList: seq<Prop>
    var cmdPropModList: seq<Prop>

    /** What one reading does to the two lists. */
    twostate predicate Added(r: CmdOption)
      reads this
    {
      match r
      case BadFormat => cmdPropList == old(cmdPropList) && cmdPropModList == old(cmdPropModList)
      case CmdOption(replace, ptype, content) =>
        var p := MakeProp(ptype, content, |content|);
        && cmdPropModList == old(cmdPropModList) + (if replace then [p] else [])
        && cmdPropList == old(cmdPropList) + (if replace then [] else [p])
    }

    method Add(r: CmdOption) returns (ok: bool)
      modifies this
      ensures Added(r) && ok == r.CmdOption?
    {
      if r == BadFormat {
        return false;
      }
      var p := MakeProp(r.ptype, r.content, |r.content|);
      if r.replace {
        cmdPropModList := cmdPropModList + [p];
      } else {
        cmdPropList := cmdPropList + [p];
      }
      ok := true;
    }

    /** append_rj_cmdline_opt */
    method AppendCmdlineOpt(opt: Bytes) returns (ok: bool)
      requires Without(opt, NUL)
      modifies this
      ensures Added(ParseOption(opt)) && ok == ParseOption(opt).CmdOption?
    {
      var r := ReadOption(opt);
      ok := Add(r);
    }
  }

  /** The loop over the content: two digits for each byte, from position 3 on. */
  method WriteContent(content: Bytes, n: int, str: array<Byte>) returns (curr: nat)
    requires n <= |content| && 3 + 2 * n <= str.Length && 3 <= str.Length
    modifies str
    ensures curr == 3 + 2 * if n > 0 then n else 0
    ensures str[..curr] == old(str[..3]) + Hex(if n > 0 then content[..n] else [])
  {
    curr := 3;
    var i := 0;
    while i < n
      invariant 0 <= i && (i <= n || i == 0) && i <= |content| && curr == 3 + 2 * i
      invariant str[..curr] == old(str[..3]) + Hex(content[..i])
    {
      ghost var before := str[..curr];
      Hex2Char(content[i], str, curr);
      assert str[..curr + 2] == before + HexByte(content[i]);
      assert content[..i + 1][..i] == content[..i];
      curr := curr + 2;
      i := i + 1;
    }
  }

  /** rjv3_save_one_prop: the text and its NUL in the buffer it allocates */
  method SaveOneProp(p: Prop, isMod: bool) returns (str: array<Byte>, ghost used: nat)
    requires 0 <= ContentSize(p) <= |p.content|
    ensures fresh(str) && str.Length == Allocated(isMod, p.len) && used < str.Length
    ensures str[..used] == Text(isMod, p.ptype, p.content[..ContentSize(p)])
    ensures str[used] == NUL
  {
    str := new Byte[Allocated(isMod, p.len)](_ => NUL);
    Hex2Char(p.ptype, str, 0);
    str[2] := COLON;
    assert Hex([p.ptype]) == HexByte(p.ptype) by {
      assert [p.ptype][..0] == [];
    }
    assert str[..3] == Hex([p.ptype]) + [COLON];
    var curr := WriteContent(p.content, ContentSize(p), str);
    ghost var text := str[..curr];
    if isMod {
      str[curr], str[curr + 1] := COLON, LETTER_R;
      curr := curr + 2;
    }
    str[curr] := NUL;
    used := curr;
    assert str[..used] == text + if isMod then [COLON, LETTER_R] else [];
  }
}
