/**
 * The --rj-option settings through the configuration file: rjv3_save_one_prop of packet_plugin_rjv3.c writes
 * each as a pair, conf_parser.c saves and loads the pairs, and append_rj_cmdline_opt reads them again.
 */
module SavedOptions {
  import opened Conf
  import opened CStrings
  import opened Octets
  import RjOption

  type Option = o: RjOption.CmdOption | o.CmdOption? witness RjOption.CmdOption(false, 0, [])

  /** rj-option */
  const KEY: Bytes := [114, 106, 45, 111, 112, 116, 105, 111, 110]

  function Value(o: Option): Bytes {
    RjOption.Text(o.replace, o.ptype, o.content)
  }

  function SavedPair(o: Option): Pair {
    Pair(KEY, Value(o))
  }

  function SavedPairs(options: seq<Option>): seq<Pair> {
    if options == [] then [] else [SavedPair(options[0])] + SavedPairs(options[1..])
  }

  /** What one pair of the file adds: nothing if it is another setting or its text is malformed. */
  function LoadedOne(p: Pair): seq<Option> {
    if p.key != KEY || RjOption.ParseOption(p.value) == RjOption.BadFormat then [] else [RjOption.ParseOption(p.value)]
  }

  function Loaded(pairs: seq<Pair>): seq<Option> {
    if pairs == [] then [] else LoadedOne(pairs[0]) + Loaded(pairs[1..])
  }

  // ---- The characters of a text ----

  /** A lower-case hexadecimal digit, the colon or the letter of the mark */
  predicate Plain(s: Bytes) {
    forall i :: 0 <= i < |s| ==> 48 <= s[i] <= 58 || 97 <= s[i] <= 102 || s[i] == 114
  }

  lemma {:induction false} HexIsPlain(content: Bytes)
    ensures Plain(RjOption.Hex(content))
  {
    if content != [] {
      HexIsPlain(content[..|content| - 1]);
    }
  }

  lemma ValueIsPlain(o: Option)
    ensures Plain(Value(o)) && |Value(o)| == 3 + 2 * |o.content| + if o.replace then 2 else 0
  {
    HexIsPlain([o.ptype]);
    HexIsPlain(o.content);
  }

  lemma PlainPair(value: Bytes)
    requires Plain(value) && |value| <= 89
    ensures PairOk(Pair(KEY, value))
  {
  }

  // ---- Lines that are too long ----

  lemma PlainRest(s: Bytes, n: nat)
    requires n <= |s| && Plain(s)
    ensures Plain(s[..n]) && Plain(s[n..])
  {
  }

  lemma NoDelimiter(line: Bytes)
    requires Without(line, EQUALS) && Without(line, NUL)
    ensures LinePair(CString(line)) == []
  {
    CStringOfPlain(line);
    LTrimIsSuffix(line);
    var t := LTrim(line);
    assert forall d :: 0 <= d < |t| ==> t[d] == line[|line| - |t| + d];
  }

  /** What is left of a line that did not fit is read as further lines, and they have no delimiter. */
  lemma {:induction false} Leftover(s: Bytes, rest: Bytes)
    requires Plain(s)
    ensures Parse(s + [NEWLINE] + rest) == Parse(rest)
    decreases |s|
  {
    var file := s + [NEWLINE] + rest;
    var max := MAX_LINE_LEN - 1;
    if |s| < max {
      ChunkOfLine(s, rest, max);
      assert file[..|s| + 1] == s + [NEWLINE] && file[|s| + 1..] == rest;
      NoDelimiter(s + [NEWLINE]);
    } else {
      PlainRest(s, max);
      LongChunk(s, rest);
      NoDelimiter(s[..max]);
      Leftover(s[max..], rest);
    }
  }

  lemma LongChunk(s: Bytes, rest: Bytes)
    requires Without(s, NEWLINE) && |s| >= MAX_LINE_LEN - 1
    ensures var file := s + [NEWLINE] + rest;
            ChunkLength(file, MAX_LINE_LEN - 1) == MAX_LINE_LEN - 1
            && file[..MAX_LINE_LEN - 1] == s[..MAX_LINE_LEN - 1]
            && file[MAX_LINE_LEN - 1..] == s[MAX_LINE_LEN - 1..] + [NEWLINE] + rest
  {
    NoNewlineChunk(s, [NEWLINE] + rest, MAX_LINE_LEN - 1);
    assert s + ([NEWLINE] + rest) == s + [NEWLINE] + rest;
  }

  lemma {:induction false} NoNewlineChunk(s: Bytes, rest: Bytes, max: nat)
    requires Without(s, NEWLINE) && |s| >= max
    ensures ChunkLength(s + rest, max) == max
    decreases max
  {
    if max > 0 {
      assert (s + rest)[1..] == s[1..] + rest && (s + rest)[0] == s[0];
      assert Without(s[1..], NEWLINE);
      NoNewlineChunk(s[1..], rest, max - 1);
    }
  }

  /** The value a line of the file holds: eighty-nine bytes behind the key and the delimiter. */
  function Survivor(o: Option): Bytes {
    if |Value(o)| <= 89 then Value(o) else Value(o)[..89]
  }

  lemma ParseSaved(o: Option, rest: Bytes)
    ensures Parse(Line(SavedPair(o)) + rest) == [Pair(KEY, Survivor(o))] + Parse(rest)
  {
    ValueIsPlain(o);
    var value := Value(o);
    if |value| <= 89 {
      PlainPair(value);
      ParseFirstLine(SavedPair(o), rest);
    } else {
      PlainRest(value, 89);
      PlainPair(value[..89]);
      var s := KEY + [EQUALS] + value;
      var head := KEY + [EQUALS] + value[..89];
      LongChunk(s, rest);
      assert s[..99] == head + [] && s[99..] == value[89..];
      LineGivesPair(Pair(KEY, value[..89]), []);
      Leftover(value[89..], rest);
      assert Line(SavedPair(o)) + rest == s + [NEWLINE] + rest;
    }
  }

  // ---- What the text of a surviving value says ----

  predicate Fits(o: Option) {
    1 <= |o.content| <= if o.replace then 42 else 43
  }

  lemma {:induction false} HexOfPrefix(content: Bytes, k: nat)
    requires k <= |content|
    ensures RjOption.Hex(content)[..2 * k] == RjOption.Hex(content[..k])
  {
    if k < |content| {
      var init := content[..|content| - 1];
      HexOfPrefix(init, k);
      assert init[..k] == content[..k];
      assert RjOption.Hex(content)[..2 * k] == RjOption.Hex(init)[..2 * k];
    } else {
      assert content[..k] == content;
    }
  }

  /** A text that is too long keeps forty-three bytes of content and loses the mark. */
  lemma LongText(o: Option)
    requires |Value(o)| > 89
    ensures Survivor(o) == RjOption.Text(false, o.ptype, o.content[..43]) && |o.content| >= 43
  {
    ValueIsPlain(o);
    HexOfPrefix(o.content, 43);
    var head := RjOption.Hex([o.ptype]) + [RjOption.COLON];
    assert |head| == 3;
    assert Value(o)[..89] == head + RjOption.Hex(o.content)[..86];
    assert head + RjOption.Hex(o.content)[..86] == RjOption.Text(false, o.ptype, o.content[..43]);
  }

  lemma LongSurvivor(o: Option)
    requires |o.content| > if o.replace then 42 else 43
    ensures LoadedOne(Pair(KEY, Survivor(o))) == [RjOption.CmdOption(false, o.ptype, o.content[..43])]
  {
    ValueIsPlain(o);
    LongText(o);
    RjOption.ParseText(false, o.ptype, o.content[..43]);
  }

  /** A modification of more than 42 bytes comes back as an addition, with at most 43 of them. */
  lemma LongModification(o: Option)
    requires |o.content| > if o.replace then 42 else 43
    ensures Loaded(Parse(Save([SavedPair(o)]))) == [RjOption.CmdOption(false, o.ptype, o.content[..43])]
  {
    LongSurvivor(o);
    SavedSingle(SavedPair(o));
    ParseSaved(o, []);
    LoadedSingle(Pair(KEY, Survivor(o)));
  }

  lemma SavedSingle(p: Pair)
    ensures Save([p]) == Line(p) + []
  {
    assert Save([p][1..]) == [];
  }

  lemma LoadedSingle(p: Pair)
    ensures Loaded([p] + Parse([])) == LoadedOne(p)
  {
    assert ([p] + Parse([]))[1..] == [];
  }

  lemma SurvivorSays(o: Option)
    ensures LoadedOne(Pair(KEY, Survivor(o))) == [o] <==> Fits(o)
  {
    ValueIsPlain(o);
    if |Value(o)| <= 89 {
      RjOption.SavedOptionRoundTrip(o.replace, o.ptype, o.content);
    } else {
      LongSurvivor(o);
    }
  }

  lemma LoadFirst(options: seq<Option>)
    requires options != []
    ensures Loaded(Parse(Save(SavedPairs(options))))
         == LoadedOne(Pair(KEY, Survivor(options[0]))) + Loaded(Parse(Save(SavedPairs(options[1..]))))
  {
    ParseSaved(options[0], Save(SavedPairs(options[1..])));
  }

  predicate AllFit(options: seq<Option>) {
    options == [] || (Fits(options[0]) && AllFit(options[1..]))
  }

  /**
   * Saving the options and loading them gives back the same options in the same order if and only if each has
   * content, at most 43 bytes of it, and at most 42 if it is a modification.
   */
  lemma {:induction false} SavedOptionsReload(options: seq<Option>)
    ensures |Loaded(Parse(Save(SavedPairs(options))))| <= |options|
    ensures Loaded(Parse(Save(SavedPairs(options)))) == options <==> AllFit(options)
  {
    if options != [] {
      SavedOptionsReload(options[1..]);
      LoadFirst(options);
      SurvivorSays(options[0]);
      SplitFirst(LoadedOne(Pair(KEY, Survivor(options[0]))), Loaded(Parse(Save(SavedPairs(options[1..])))), options);
    }
  }

  lemma SplitFirst(one: seq<Option>, more: seq<Option>, options: seq<Option>)
    requires options != [] && |one| <= 1 && |more| <= |options| - 1
    ensures one + more == options <==> one == [options[0]] && more == options[1..]
  {
    if one + more == options {
      assert |one| == 1 && one[0] == options[0];
      assert (one + more)[1..] == more;
    }
  }
}
