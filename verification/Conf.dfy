/**
 * util/conf_parser.c: reading and writing the configuration file.
 */
module Conf {
  import opened CStrings
  import opened Octets

  const MAX_LINE_LEN := 100

  const NEWLINE: Byte := 10
  const HASH: Byte := 35
  const EQUALS: Byte := 61

  datatype Pair = Pair(key: Bytes, value: Bytes)

  /** isspace */
  predicate IsSpace(c: Byte) {
    c == 32 || 9 <= c <= 13
  }

  function LTrim(s: Bytes): Bytes {
    if s != [] && IsSpace(s[0]) then LTrim(s[1..]) else s
  }

  function RTrim(s: Bytes): Bytes {
    if s != [] && IsSpace(s[|s| - 1]) then RTrim(s[..|s| - 1]) else s
  }

  /** The pair one line adds to the list, if any. */
  function LinePair(line: Bytes): seq<Pair> {
    CutLine(LTrim(line), Find(LTrim(line), EQUALS))
  }

  /** The pair of a text whose delimiter is at `d`, or past its end. */
  function CutLine(t: Bytes, d: nat): seq<Pair>
    requires d <= |t|
  {
    if (t != [] && t[0] == HASH) || d == |t| then [] else [Pair(t[..d], RTrim(t[d + 1..]))]
  }

  /** How much fgets takes for a buffer of `max` bytes and the terminator. */
  function ChunkLength(s: Bytes, max: nat): (n: nat)
    ensures n <= |s| && n <= max && (s != [] && max > 0 ==> n > 0)
    ensures forall i :: 0 <= i < n - 1 ==> s[i] != NEWLINE
  {
    if s == [] || max == 0 then 0
    else if s[0] == NEWLINE then 1
    else
      var n := ChunkLength(s[1..], max - 1);
      assert forall j :: 0 < j < |s| ==> s[j] == s[1..][j - 1];
      n + 1
  }

  /** conf_parser_parse_now on a file with these bytes */
  function Parse(file: Bytes): seq<Pair> {
    if file == [] then []
    else
      var n := ChunkLength(file, MAX_LINE_LEN - 1);
      LinePair(CString(file[..n])) + Parse(file[n..])
  }

  /** conf_write_one_pair */
  function Line(p: Pair): Bytes {
    p.key + [EQUALS] + p.value + [NEWLINE]
  }

  /** conf_parser_save_file */
  function Save(pairs: seq<Pair>): Bytes {
    if pairs == [] then [] else Line(pairs[0]) + Save(pairs[1..])
  }

  // ---- What survives ----

  predicate KeyOk(key: Bytes) {
    && Without(key, NUL) && Without(key, NEWLINE) && Without(key, EQUALS)
    && (key != [] ==> !IsSpace(key[0]) && key[0] != HASH)
  }

  predicate ValueOk(value: Bytes) {
    && Without(value, NUL) && Without(value, NEWLINE)
    && (value != [] ==> !IsSpace(value[|value| - 1]))
  }

  predicate PairOk(p: Pair) {
    KeyOk(p.key) && ValueOk(p.value) && |p.key| + 1 + |p.value| <= MAX_LINE_LEN - 1
  }

  predicate AllOk(pairs: seq<Pair>) {
    forall i :: 0 <= i < |pairs| ==> PairOk(pairs[i])
  }

  lemma {:induction false} ChunkOfLine(s: Bytes, rest: Bytes, max: nat)
    requires Without(s, NEWLINE) && |s| <= max
    ensures ChunkLength(s + [NEWLINE] + rest, max) == if |s| < max then |s| + 1 else |s|
  {
    if s != [] {
      var all := s + [NEWLINE] + rest;
      assert all[1..] == s[1..] + [NEWLINE] + rest;
      assert all[0] == s[0];
      assert Without(s[1..], NEWLINE) by {
        forall i | 0 <= i < |s[1..]|
          ensures s[1..][i] != NEWLINE
        {
          assert s[1..][i] == s[i + 1];
        }
      }
      ChunkOfLine(s[1..], rest, max - 1);
    }
  }

  lemma TrimTail(value: Bytes, tail: Bytes)
    requires ValueOk(value) && (tail == [] || tail == [NEWLINE])
    ensures RTrim(value + tail) == value
  {
    if tail == [] {
      assert value + tail == value;
    } else {
      assert (value + tail)[..|value|] == value;
    }
  }

  lemma LineHasNoNul(p: Pair, tail: Bytes)
    requires PairOk(p) && (tail == [] || tail == [NEWLINE])
    ensures Without(p.key + [EQUALS] + p.value + tail, NUL)
  {
  }

  lemma Trimmed(line: Bytes, i: nat)
    requires i < |line| && line[i] == EQUALS && Without(line[..i], EQUALS)
    requires i > 0 ==> !IsSpace(line[0]) && line[0] != HASH
    ensures LinePair(line) == [Pair(line[..i], RTrim(line[i + 1..]))]
  {
    assert forall j :: 0 <= j < i ==> line[j] == line[..i][j];
    FirstAt(line, EQUALS, i);
    assert LTrim(line) == line;
  }

  lemma LineGivesPair(p: Pair, tail: Bytes)
    requires PairOk(p) && (tail == [] || tail == [NEWLINE])
    ensures LinePair(CString(p.key + [EQUALS] + p.value + tail)) == [p]
  {
    var line := p.key + [EQUALS] + p.value + tail;
    LineHasNoNul(p, tail);
    CStringOfPlain(line);
    assert line[..|p.key|] == p.key && line[|p.key| + 1..] == p.value + tail && line[|p.key|] == EQUALS;
    assert p.key != [] ==> line[0] == p.key[0];
    Trimmed(line, |p.key|);
    TrimTail(p.value, tail);
  }

  lemma ParseFirstLine(p: Pair, rest: Bytes)
    requires PairOk(p)
    ensures Parse(Line(p) + rest) == [p] + Parse(rest)
  {
    var s := p.key + [EQUALS] + p.value;
    var file := Line(p) + rest;
    assert file == s + [NEWLINE] + rest;
    ChunkOfLine(s, rest, MAX_LINE_LEN - 1);
    if |s| < MAX_LINE_LEN - 1 {
      assert file[..|s| + 1] == s + [NEWLINE] && file[|s| + 1..] == rest;
      LineGivesPair(p, [NEWLINE]);
    } else {
      assert file[..|s|] == s + [] && file[|s|..] == [NEWLINE] + rest;
      LineGivesPair(p, []);
      LoneNewline(rest);
    }
  }

  lemma LoneNewline(rest: Bytes)
    ensures Parse([NEWLINE] + rest) == Parse(rest)
  {
    var file := [NEWLINE] + rest;
    assert ChunkLength(file, MAX_LINE_LEN - 1) == 1;
    assert file[..1] == [NEWLINE] && file[1..] == rest;
    CStringOfPlain([NEWLINE]);
    assert LTrim([NEWLINE]) == LTrim([NEWLINE][1..]) == [];
  }

  lemma {:induction false} SavedParses(pairs: seq<Pair>)
    requires AllOk(pairs)
    ensures Parse(Save(pairs)) == pairs
  {
    if pairs != [] {
      SavedParses(pairs[1..]);
      ParseFirstLine(pairs[0], Save(pairs[1..]));
    }
  }

  // ---- What the parser can produce ----

  lemma {:induction false} LTrimIsSuffix(s: Bytes)
    ensures |LTrim(s)| <= |s| && LTrim(s) == s[|s| - |LTrim(s)|..]
    ensures LTrim(s) != [] ==> !IsSpace(LTrim(s)[0])
  {
    if s != [] && IsSpace(s[0]) {
      LTrimIsSuffix(s[1..]);
    }
  }

  lemma {:induction false} RTrimIsPrefix(s: Bytes)
    ensures |RTrim(s)| <= |s| && RTrim(s) == s[..|RTrim(s)|]
    ensures RTrim(s) != [] ==> !IsSpace(RTrim(s)[|RTrim(s)| - 1])
    ensures forall i :: |RTrim(s)| <= i < |s| ==> IsSpace(s[i])
  {
    if s != [] && IsSpace(s[|s| - 1]) {
      RTrimIsPrefix(s[..|s| - 1]);
      assert s[..|s| - 1][..|RTrim(s)|] == s[..|RTrim(s)|];
      assert forall i :: 0 <= i < |s| - 1 ==> s[..|s| - 1][i] == s[i];
    }
  }

  /** A newline, if there is one, is the last byte. */
  predicate NewlineOnlyLast(s: Bytes) {
    forall i :: 0 <= i < |s| - 1 ==> s[i] != NEWLINE
  }

  lemma KeyOfLine(t: Bytes, d: nat)
    requires d < |t| && t[d] == EQUALS && (forall j :: 0 <= j < d ==> t[j] != EQUALS)
    requires Without(t, NUL) && NewlineOnlyLast(t) && !IsSpace(t[0]) && t[0] != HASH
    ensures KeyOk(t[..d])
  {
  }

  lemma ValueOfLine(t: Bytes, d: nat)
    requires d < |t| && t[d] == EQUALS && Without(t, NUL) && NewlineOnlyLast(t)
    ensures ValueOk(RTrim(t[d + 1..])) && |RTrim(t[d + 1..])| <= |t| - d - 1
  {
    var v := t[d + 1..];
    var r := RTrim(v);
    RTrimIsPrefix(v);
    assert forall i :: 0 <= i < |r| ==> r[i] == v[i] == t[d + 1 + i];
  }

  lemma CutOk(t: Bytes, d: nat)
    requires d <= |t| <= MAX_LINE_LEN - 1 && (forall j :: 0 <= j < d ==> t[j] != EQUALS) && (d < |t| ==> t[d] == EQUALS)
    requires Without(t, NUL) && NewlineOnlyLast(t) && (t != [] ==> !IsSpace(t[0]))
    ensures AllOk(CutLine(t, d))
  {
    if d < |t| && t[0] != HASH {
      KeyOfLine(t, d);
      ValueOfLine(t, d);
    }
  }

  lemma SuffixKeeps(line: Bytes, k: nat)
    requires k <= |line| && Without(line, NUL) && NewlineOnlyLast(line)
    ensures Without(line[k..], NUL) && NewlineOnlyLast(line[k..])
  {
    assert forall i :: 0 <= i < |line| - k ==> line[k..][i] == line[k + i];
  }

  lemma LinePairOk(line: Bytes)
    requires Without(line, NUL) && NewlineOnlyLast(line) && |line| <= MAX_LINE_LEN - 1
    ensures AllOk(LinePair(line))
  {
    LTrimIsSuffix(line);
    SuffixKeeps(line, |line| - |LTrim(line)|);
    CutOk(LTrim(line), Find(LTrim(line), EQUALS));
  }

  lemma {:induction false} ParsedIsOk(file: Bytes)
    ensures AllOk(Parse(file))
    decreases |file|
  {
    if file != [] {
      var n := ChunkLength(file, MAX_LINE_LEN - 1);
      var line := CString(file[..n]);
      ParsedIsOk(file[n..]);
      CStringIsPrefix(file[..n]);
      assert forall i :: 0 <= i < |line| ==> line[i] == file[i];
      LinePairOk(line);
    }
  }

  /** Space, tab, newline, vertical tab, form feed or carriage return */
  predicate Blank(s: Bytes) {
    forall i :: 0 <= i < |s| ==> s[i] == 32 || s[i] == 9 || s[i] == 10 || s[i] == 11 || s[i] == 12 || s[i] == 13
  }

  lemma BlanksAreTrimmed(lead: Bytes, t: Bytes)
    requires Blank(lead) && (t == [] || !Blank([t[0]]))
    ensures LTrim(lead + t) == t
  {
    var s := lead + t;
    forall j | 0 <= j < |lead|
      ensures IsSpace(s[j])
    {
      assert s[j] == lead[j];
    }
    if t != [] {
      assert s[|lead|] == t[0] && [t[0]][0] == t[0];
    }
    LTrimAt(s, |lead|);
    assert s[|lead|..] == t;
  }

  lemma BlanksBehind(value: Bytes, trail: Bytes)
    requires Blank(trail) && (value == [] || !Blank([value[|value| - 1]]))
    ensures RTrim(value + trail) == value
  {
    var s := value + trail;
    forall j | |value| <= j < |s|
      ensures IsSpace(s[j])
    {
      assert s[j] == trail[j - |value|];
    }
    if value != [] {
      assert s[|value| - 1] == value[|value| - 1];
    }
    RTrimAt(s, |value|);
    assert s[..|value|] == value;
  }

  /** Blanks in front of the key and behind the value do not count; those around the equals sign do. */
  lemma DecoratedLine(lead: Bytes, key: Bytes, value: Bytes, trail: Bytes)
    requires Blank(lead) && Blank(trail) && Without(key, 61)
    requires key == [] || (!Blank([key[0]]) && key[0] != 35)
    requires value == [] || !Blank([value[|value| - 1]])
    ensures LinePair(lead + (key + [61] + value + trail)) == [Pair(key, value)]
  {
    var t := key + [61] + value + trail;
    LineParts(key, value, trail, t);
    BlanksAreTrimmed(lead, t);
    FirstOf(t, key);
    BlanksBehind(value, trail);
    CutAt(t, |key|);
  }

  lemma LineParts(key: Bytes, value: Bytes, trail: Bytes, t: Bytes)
    requires t == key + [61] + value + trail
    ensures |key| < |t| && t[0] == (if key == [] then 61 else key[0]) && t[..|key|] == key && t[|key|] == 61
    ensures t[|key| + 1..] == value + trail
  {
  }

  lemma CutAt(t: Bytes, d: nat)
    requires d < |t| && t[0] != 35
    ensures CutLine(t, d) == [Pair(t[..d], RTrim(t[d + 1..]))]
  {
  }

  lemma FirstOf(t: Bytes, key: Bytes)
    requires |key| < |t| && t[..|key|] == key && t[|key|] == 61 && Without(key, 61)
    ensures Find(t, 61) == |key|
  {
    assert forall j :: 0 <= j < |key| ==> t[j] == t[..|key|][j];
    FirstAt(t, 61, |key|);
  }

  /** A line whose first character behind blanks is the hash sign adds nothing, nor does one without an equals sign. */
  lemma OtherLines(lead: Bytes, rest: Bytes)
    requires Blank(lead)
    ensures LinePair(lead + ([35] + rest)) == []
    ensures Without(rest, 61) && (rest == [] || !Blank([rest[0]])) ==> LinePair(lead + rest) == []
  {
    BlanksAreTrimmed(lead, [35] + rest);
    if Without(rest, 61) && (rest == [] || !Blank([rest[0]])) {
      BlanksAreTrimmed(lead, rest);
      assert Find(rest, 61) == |rest|;
    }
  }

  /** What stands behind a NUL in a line is not read. */
  lemma NulEndsTheLine(text: Bytes, hidden: Bytes)
    requires Without(text, 0) && Without(text, 10) && Without(hidden, 10) && |text| + 1 + |hidden| < 99
    ensures Parse(text + [0] + hidden + [10]) == LinePair(text)
  {
    var s := text + [0] + hidden;
    var file := s + [10];
    assert file == s + [NEWLINE] + [];
    ChunkOfLine(s, [], MAX_LINE_LEN - 1);
    assert file[..|file|] == file && file[|file|..] == [];
    assert file[..|text|] == text && file[|text|] == NUL;
    CStringAt(file, |text|);
    assert LinePair(text) + Parse([]) == LinePair(text);
  }

  /** A list survives being saved and parsed exactly if each of its pairs is one a line can hold. */
  lemma SaveRoundTrip(pairs: seq<Pair>)
    ensures Parse(Save(pairs)) == pairs <==> AllOk(pairs)
  {
    if AllOk(pairs) {
      SavedParses(pairs);
    }
    ParsedIsOk(Save(pairs));
  }

  /** Saving what was read from any file and reading it again changes nothing. */
  lemma RewritingIsStable(file: Bytes)
    ensures Parse(Save(Parse(file))) == Parse(file)
  {
    ParsedIsOk(file);
    SavedParses(Parse(file));
  }

  // ---- The program's buffer and list ----

  lemma {:induction false} LTrimAt(s: Bytes, i: nat)
    requires i <= |s| && (forall j :: 0 <= j < i ==> IsSpace(s[j])) && (i < |s| ==> !IsSpace(s[i]))
    ensures LTrim(s) == s[i..]
  {
    if i > 0 {
      LTrimAt(s[1..], i - 1);
      assert s[1..][i - 1..] == s[i..];
    }
  }

  lemma {:induction false} RTrimAt(s: Bytes, i: nat)
    requires i <= |s| && (forall j :: i <= j < |s| ==> IsSpace(s[j])) && (i > 0 ==> !IsSpace(s[i - 1]))
    ensures RTrim(s) == s[..i]
  {
    if i < |s| {
      RTrimAt(s[..|s| - 1], i);
      assert s[..|s| - 1][..i] == s[..i];
    } else {
      assert s[..i] == s;
    }
  }

  /** strdup */
  method StrDup(buf: array<Byte>, from: nat, ghost end: nat) returns (s: Bytes)
    requires from <= end < buf.Length && buf[end] == NUL
    ensures s == CString(buf[from..])
  {
    var i := from;
    s := [];
    while buf[i] != NUL
      invariant from <= i <= end && s == buf[from..i] && Without(s, NUL)
      decreases end - i
    {
      s := s + [buf[i]];
      i := i + 1;
    }
    assert buf[from..][..i - from] == s;
    CStringAt(buf[from..], i - from);
  }

  /** The first `|line|` bytes of the buffer are the line, then comes a NUL. */
  ghost predicate Holds(buf: array<Byte>, line: Bytes)
    reads buf
  {
    && |line| <= MAX_LINE_LEN < buf.Length && Without(line, NUL)
    && buf[..|line|] == line && buf[|line|] == NUL
  }

  /** strnlen(line_buf, MAX_LINE_LEN) */
  method LineLength(buf: array<Byte>, ghost line: Bytes) returns (lineLen: nat)
    requires Holds(buf, line)
    ensures lineLen == |line|
  {
    lineLen := 0;
    while lineLen < MAX_LINE_LEN && buf[lineLen] != NUL
      invariant lineLen <= |line|
    {
      lineLen := lineLen + 1;
    }
  }

  /** LTRIM; `start` is where the text begins. */
  method SkipSpaces(buf: array<Byte>, ghost line: Bytes, lineLen: nat) returns (start: nat)
    requires Holds(buf, line) && lineLen == |line|
    ensures start <= |line| && LTrim(line) == line[start..]
  {
    start := 0;
    while start < lineLen && IsSpace(buf[start])
      invariant start <= lineLen && forall j :: 0 <= j < start ==> IsSpace(line[j])
    {
      assert line[start] == buf[start];
      start := start + 1;
    }
    assert start < lineLen ==> line[start] == buf[start];
    LTrimAt(line, start);
  }

  /** strchr(start_pos, '='): the place found, or that of the NUL. */
  method FindDelimiter(buf: array<Byte>, ghost line: Bytes, start: nat) returns (delim: nat)
    requires Holds(buf, line) && start <= |line|
    ensures delim == start + Find(line[start..], EQUALS) <= |line|
    ensures buf[delim] == if delim == |line| then NUL else EQUALS
  {
    ghost var t := line[start..];
    delim := start;
    while buf[delim] != NUL && buf[delim] != EQUALS
      invariant start <= delim <= |line| && forall j :: 0 <= j < delim - start ==> t[j] != EQUALS
      decreases |line| - delim
    {
      assert delim < |line|;
      assert t[delim - start] == line[delim] == buf[delim];
      delim := delim + 1;
    }
    if delim < |line| {
      assert t[delim - start] == line[delim] == buf[delim];
      FirstAt(t, EQUALS, delim - start);
    }
  }

  /** RTRIM(delim_pos, …): the NUL moves in front of the spaces at the end. */
  method TrimEnd(buf: array<Byte>, ghost line: Bytes, delim: nat, lineLen: nat) returns (ghost end: nat)
    requires Holds(buf, line) && lineLen == |line| && delim < |line| && line[delim] == EQUALS
    modifies buf
    ensures buf[..delim + 1] == line[..delim + 1] && delim < end < buf.Length && buf[end] == NUL
    ensures CString(buf[delim + 1..]) == RTrim(line[delim + 1..])
  {
    ghost var v := line[delim + 1..];
    assert forall j :: 0 <= j < |line| ==> buf[j] == line[j];
    var tmp: int := lineLen - 1;
    while tmp >= delim && IsSpace(buf[tmp])
      invariant delim <= tmp < lineLen && forall j :: tmp < j < lineLen ==> IsSpace(buf[j])
    {
      tmp := tmp - 1;
    }
    RTrimAt(v, tmp - delim);
    if IsSpace(buf[tmp + 1]) {
      buf[tmp + 1] := NUL;
    }
    end := tmp + 1;
    ghost var rest := buf[delim + 1..];
    assert rest[tmp - delim] == NUL && rest[..tmp - delim] == v[..tmp - delim];
    CStringAt(rest, tmp - delim);
  }

  /** The delimiter becomes a NUL too, and the two strings are copied out. */
  method CutPair(buf: array<Byte>, ghost key: Bytes, ghost value: Bytes, start: nat, delim: nat, ghost end: nat)
    returns (p: Pair)
    requires start <= delim < end < buf.Length && buf[end] == NUL
    requires buf[start..delim] == key && Without(key, NUL) && CString(buf[delim + 1..]) == value
    modifies buf
    ensures p == Pair(key, value)
  {
    ghost var rest := buf[delim + 1..];
    buf[delim] := NUL;
    assert buf[delim + 1..] == rest && buf[start..][..delim - start] == key;
    CStringAt(buf[start..], delim - start);
    var k := StrDup(buf, start, delim);
    var v := StrDup(buf, delim + 1, end);
    p := Pair(k, v);
  }

  lemma CutInPlace(line: Bytes, start: nat, d: nat)
    requires start + d <= |line|
    ensures CutLine(line[start..], d)
         == if (start < |line| && line[start] == HASH) || start + d == |line| then []
            else [Pair(line[start..start + d], RTrim(line[start + d + 1..]))]
  {
    if start + d < |line| {
      assert line[start..][..d] == line[start..start + d] && line[start..][d + 1..] == line[start + d + 1..];
    }
  }

  /** From the first character that is not a space: the comment test, strchr, RTRIM and the copies. */
  method ParseText(buf: array<Byte>, ghost line: Bytes, lineLen: nat, start: nat) returns (pairs: seq<Pair>)
    requires Holds(buf, line) && lineLen == |line| && start <= |line|
    modifies buf
    ensures pairs == CutLine(line[start..], Find(line[start..], EQUALS))
  {
    ghost var d := Find(line[start..], EQUALS);
    CutInPlace(line, start, d);
    assert start < |line| ==> buf[start] == line[start];
    if buf[start] == HASH {
      return [];
    }
    var delim := FindDelimiter(buf, line, start);
    if buf[delim] == NUL {
      return [];
    }
    var p := TakePair(buf, line, lineLen, start, delim);
    pairs := [p];
  }

  /** The pair of a line whose delimiter has been found. */
  method TakePair(buf: array<Byte>, ghost line: Bytes, lineLen: nat, start: nat, delim: nat) returns (p: Pair)
    requires Holds(buf, line) && lineLen == |line| && start <= delim < |line| && line[delim] == EQUALS
    modifies buf
    ensures p == Pair(line[start..delim], RTrim(line[delim + 1..]))
  {
    ghost var end := TrimEnd(buf, line, delim, lineLen);
    KeyInPlace(buf, line, start, delim);
    p := CutPair(buf, line[start..delim], RTrim(line[delim + 1..]), start, delim, end);
  }

  lemma KeyInPlace(buf: array<Byte>, line: Bytes, start: nat, delim: nat)
    requires start <= delim < |line| && delim < buf.Length && Without(line, NUL)
    requires buf[..delim + 1] == line[..delim + 1]
    ensures buf[start..delim] == line[start..delim] && Without(line[start..delim], NUL)
  {
    assert buf[start..delim] == buf[..delim + 1][start..delim];
    assert line[start..delim] == line[..delim + 1][start..delim];
  }

  /** The body of conf_parser_parse_now's loop: the pairs of one line; the buffer is cut up in place. */
  method ParseLine(buf: array<Byte>, ghost line: Bytes) returns (pairs: seq<Pair>)
    requires Holds(buf, line)
    modifies buf
    ensures pairs == LinePair(line)
  {
    var lineLen := LineLength(buf, line);
    var start := SkipSpaces(buf, line, lineLen);
    pairs := ParseText(buf, line, lineLen, start);
  }

  lemma ParseStep(file: Bytes, pos: nat, next: nat)
    requires pos < |file| && next == pos + ChunkLength(file[pos..], MAX_LINE_LEN - 1)
    ensures next <= |file| && Parse(file[pos..]) == LinePair(CString(file[pos..next])) + Parse(file[next..])
  {
    assert file[pos..][..next - pos] == file[pos..next] && file[pos..][next - pos..] == file[next..];
  }

  lemma AssocPairs(a: seq<Pair>, b: seq<Pair>, c: seq<Pair>)
    ensures (a + b) + c == a + (b + c)
  {
  }

  lemma ChunkHolds(buf: array<Byte>, chunk: Bytes)
    requires |chunk| <= MAX_LINE_LEN < buf.Length && buf[..|chunk|] == chunk && buf[|chunk|] == NUL
    ensures Holds(buf, CString(chunk))
  {
    CStringIsPrefix(chunk);
    CStringStops(chunk);
    var line := CString(chunk);
    assert buf[..|line|] == buf[..|chunk|][..|line|];
    assert |line| < |chunk| ==> buf[|line|] == chunk[|line|];
  }

  class ConfParser {
    /** g_conf_list */
    var conf: seq<Pair>

    constructor ()
      ensures conf == []
    {
      conf := [];
    }

    /** conf_parser_add_value */
    method AddValue(key: Bytes, value: Bytes)
      modifies this
      ensures conf == old(conf) + [Pair(key, value)]
    {
      conf := conf + [Pair(key, value)];
    }

    /** fgets: `pos` is the place in the file; at most `max` bytes and a NUL go into the buffer. */
    method Fgets(buf: array<Byte>, max: nat, file: Bytes, pos: nat) returns (next: nat)
      requires max < buf.Length && pos <= |file|
      modifies buf
      ensures next == pos + ChunkLength(file[pos..], max)
      ensures buf[..next - pos] == file[pos..next] && buf[next - pos] == NUL
    {
      next := pos;
      ghost var n := ChunkLength(file[pos..], max);
      while next < |file| && next - pos < max && (next == pos || file[next - 1] != NEWLINE)
        invariant pos <= next <= |file| && next - pos <= max && buf[..next - pos] == file[pos..next]
        invariant ChunkLength(file[pos..], max)
               == next - pos + if next > pos && file[next - 1] == NEWLINE then 0
                  else ChunkLength(file[next..], max - (next - pos))
      {
        buf[next - pos] := file[next];
        assert file[next..][1..] == file[next + 1..];
        next := next + 1;
      }
      buf[next - pos] := NUL;
    }

    /** One turn of the loop below */
    method ParseNext(buf: array<Byte>, file: Bytes, pos: nat) returns (next: nat)
      requires pos < |file| && MAX_LINE_LEN < buf.Length
      modifies this, buf
      ensures next == pos + ChunkLength(file[pos..], MAX_LINE_LEN - 1)
      ensures conf == old(conf) + LinePair(CString(file[pos..next]))
    {
      next := Fgets(buf, MAX_LINE_LEN - 1, file, pos);
      ghost var chunk := file[pos..next];
      ChunkHolds(buf, chunk);
      var pairs := ParseLine(buf, CString(chunk));
      if pairs != [] {
        AddValue(pairs[0].key, pairs[0].value);
      }
    }

    /** conf_parser_parse_now on a file that can be opened: what it holds is added to the list. */
    method ParseNow(file: Bytes)
      modifies this
      ensures conf == old(conf) + Parse(file)
    {
      var buf := new Byte[MAX_LINE_LEN + 1](_ => NUL);
      var pos := 0;
      ghost var parsed: seq<Pair> := [];
      while pos < |file|
        invariant pos <= |file| && conf == old(conf) + parsed && parsed + Parse(file[pos..]) == Parse(file)
      {
        var next := ParseNext(buf, file, pos);
        ParseStep(file, pos, next);
        ghost var more := LinePair(CString(file[pos..next]));
        AssocPairs(old(conf), parsed, more);
        AssocPairs(parsed, more, Parse(file[next..]));
        parsed := parsed + more;
        pos := next;
      }
    }

    /** conf_parser_save_file: refuses to write an empty list. */
    method SaveFile() returns (ok: bool, file: Bytes)
      ensures ok <==> conf != []
      ensures ok ==> file == Save(conf)
    {
      file := [];
      if conf == [] {
        return false, file;
      }
      var i := 0;
      while i < |conf|
        invariant 0 <= i <= |conf| && file + Save(conf[i..]) == Save(conf)
      {
        assert conf[i..][1..] == conf[i + 1..];
        assert file + (Line(conf[i]) + Save(conf[i + 1..])) == file + Line(conf[i]) + Save(conf[i + 1..]);
        file := file + Line(conf[i]);
        i := i + 1;
      }
      ok := true;
    }
  }
}
