/**
 * rjcrc16.c: the table-driven checksum is the remainder of the message, as a polynomial over the two-element
 * field, times x^16.
 */
module Crc16 {
  import opened Gf2

  /** crc16tab */
  function Table(i: bv8): bv16 {
    match i >> 4
    case 0 => (match i & 0xf
                case 0 => 0x0000 case 1 => 0x1021 case 2 => 0x2042 case 3 => 0x3063
                case 4 => 0x4084 case 5 => 0x50a5 case 6 => 0x60c6 case 7 => 0x70e7
                case 8 => 0x8108 case 9 => 0x9129 case 10 => 0xa14a case 11 => 0xb16b
                case 12 => 0xc18c case 13 => 0xd1ad case 14 => 0xe1ce case _ => 0xf1ef)
    case 1 => (match i & 0xf
                case 0 => 0x1231 case 1 => 0x0210 case 2 => 0x3273 case 3 => 0x2252
                case 4 => 0x52b5 case 5 => 0x4294 case 6 => 0x72f7 case 7 => 0x62d6
                case 8 => 0x9339 case 9 => 0x8318 case 10 => 0xb37b case 11 => 0xa35a
                case 12 => 0xd3bd case 13 => 0xc39c case 14 => 0xf3ff case _ => 0xe3de)
    case 2 => (match i & 0xf
                case 0 => 0x2462 case 1 => 0x3443 case 2 => 0x0420 case 3 => 0x1401
                case 4 => 0x64e6 case 5 => 0x74c7 case 6 => 0x44a4 case 7 => 0x5485
                case 8 => 0xa56a case 9 => 0xb54b case 10 => 0x8528 case 11 => 0x9509
                case 12 => 0xe5ee case 13 => 0xf5cf case 14 => 0xc5ac case _ => 0xd58d)
    case 3 => (match i & 0xf
                case 0 => 0x3653 case 1 => 0x2672 case 2 => 0x1611 case 3 => 0x0630
                case 4 => 0x76d7 case 5 => 0x66f6 case 6 => 0x5695 case 7 => 0x46b4
                case 8 => 0xb75b case 9 => 0xa77a case 10 => 0x9719 case 11 => 0x8738
                case 12 => 0xf7df case 13 => 0xe7fe case 14 => 0xd79d case _ => 0xc7bc)
    case 4 => (match i & 0xf
                case 0 => 0x48c4 case 1 => 0x58e5 case 2 => 0x6886 case 3 => 0x78a7
                case 4 => 0x0840 case 5 => 0x1861 case 6 => 0x2802 case 7 => 0x3823
                case 8 => 0xc9cc case 9 => 0xd9ed case 10 => 0xe98e case 11 => 0xf9af
                case 12 => 0x8948 case 13 => 0x9969 case 14 => 0xa90a case _ => 0xb92b)
    case 5 => (match i & 0xf
                case 0 => 0x5af5 case 1 => 0x4ad4 case 2 => 0x7ab7 case 3 => 0x6a96
                case 4 => 0x1a71 case 5 => 0x0a50 case 6 => 0x3a33 case 7 => 0x2a12
                case 8 => 0xdbfd case 9 => 0xcbdc case 10 => 0xfbbf case 11 => 0xeb9e
                case 12 => 0x9b79 case 13 => 0x8b58 case 14 => 0xbb3b case _ => 0xab1a)
    case 6 => (match i & 0xf
                case 0 => 0x6ca6 case 1 => 0x7c87 case 2 => 0x4ce4 case 3 => 0x5cc5
                case 4 => 0x2c22 case 5 => 0x3c03 case 6 => 0x0c60 case 7 => 0x1c41
                case 8 => 0xedae case 9 => 0xfd8f case 10 => 0xcdec case 11 => 0xddcd
                case 12 => 0xad2a case 13 => 0xbd0b case 14 => 0x8d68 case _ => 0x9d49)
    case 7 => (match i & 0xf
                case 0 => 0x7e97 case 1 => 0x6eb6 case 2 => 0x5ed5 case 3 => 0x4ef4
                case 4 => 0x3e13 case 5 => 0x2e32 case 6 => 0x1e51 case 7 => 0x0e70
                case 8 => 0xff9f case 9 => 0xefbe case 10 => 0xdfdd case 11 => 0xcffc
                case 12 => 0xbf1b case 13 => 0xaf3a case 14 => 0x9f59 case _ => 0x8f78)
    case 8 => (match i & 0xf
                case 0 => 0x9188 case 1 => 0x81a9 case 2 => 0xb1ca case 3 => 0xa1eb
                case 4 => 0xd10c case 5 => 0xc12d case 6 => 0xf14e case 7 => 0xe16f
                case 8 => 0x1080 case 9 => 0x00a1 case 10 => 0x30c2 case 11 => 0x20e3
                case 12 => 0x5004 case 13 => 0x4025 case 14 => 0x7046 case _ => 0x6067)
    case 9 => (match i & 0xf
                case 0 => 0x83b9 case 1 => 0x9398 case 2 => 0xa3fb case 3 => 0xb3da
                case 4 => 0xc33d case 5 => 0xd31c case 6 => 0xe37f case 7 => 0xf35e
                case 8 => 0x02b1 case 9 => 0x1290 case 10 => 0x22f3 case 11 => 0x32d2
                case 12 => 0x4235 case 13 => 0x5214 case 14 => 0x6277 case _ => 0x7256)
    case 10 => (match i & 0xf
                case 0 => 0xb5ea case 1 => 0xa5cb case 2 => 0x95a8 case 3 => 0x8589
                case 4 => 0xf56e case 5 => 0xe54f case 6 => 0xd52c case 7 => 0xc50d
                case 8 => 0x34e2 case 9 => 0x24c3 case 10 => 0x14a0 case 11 => 0x0481
                case 12 => 0x7466 case 13 => 0x6447 case 14 => 0x5424 case _ => 0x4405)
    case 11 => (match i & 0xf
                case 0 => 0xa7db case 1 => 0xb7fa case 2 => 0x8799 case 3 => 0x97b8
                case 4 => 0xe75f case 5 => 0xf77e case 6 => 0xc71d case 7 => 0xd73c
                case 8 => 0x26d3 case 9 => 0x36f2 case 10 => 0x0691 case 11 => 0x16b0
                case 12 => 0x6657 case 13 => 0x7676 case 14 => 0x4615 case _ => 0x5634)
    case 12 => (match i & 0xf
                case 0 => 0xd94c case 1 => 0xc96d case 2 => 0xf90e case 3 => 0xe92f
                case 4 => 0x99c8 case 5 => 0x89e9 case 6 => 0xb98a case 7 => 0xa9ab
                case 8 => 0x5844 case 9 => 0x4865 case 10 => 0x7806 case 11 => 0x6827
                case 12 => 0x18c0 case 13 => 0x08e1 case 14 => 0x3882 case _ => 0x28a3)
    case 13 => (match i & 0xf
                case 0 => 0xcb7d case 1 => 0xdb5c case 2 => 0xeb3f case 3 => 0xfb1e
                case 4 => 0x8bf9 case 5 => 0x9bd8 case 6 => 0xabbb case 7 => 0xbb9a
                case 8 => 0x4a75 case 9 => 0x5a54 case 10 => 0x6a37 case 11 => 0x7a16
                case 12 => 0x0af1 case 13 => 0x1ad0 case 14 => 0x2ab3 case _ => 0x3a92)
    case 14 => (match i & 0xf
                case 0 => 0xfd2e case 1 => 0xed0f case 2 => 0xdd6c case 3 => 0xcd4d
                case 4 => 0xbdaa case 5 => 0xad8b case 6 => 0x9de8 case 7 => 0x8dc9
                case 8 => 0x7c26 case 9 => 0x6c07 case 10 => 0x5c64 case 11 => 0x4c45
                case 12 => 0x3ca2 case 13 => 0x2c83 case 14 => 0x1ce0 case _ => 0x0cc1)
    case 15 => (match i & 0xf
                case 0 => 0xef1f case 1 => 0xff3e case 2 => 0xcf5d case 3 => 0xdf7c
                case 4 => 0xaf9b case 5 => 0xbfba case 6 => 0x8fd9 case 7 => 0x9ff8
                case 8 => 0x6e17 case 9 => 0x7e36 case 10 => 0x4e55 case 11 => 0x5e74
                case 12 => 0x2e93 case 13 => 0x3eb2 case 14 => 0x0ed1 case _ => 0x1ef0)
    case _ => 0
  }

  // ---- Words and bytes as coefficients, most significant bit first ----

  predicate Top(c: bv16) {
    c & 0x8000 != 0
  }

  function Digits(c: bv16, n: nat): (r: Bits)
    ensures |r| == n
    decreases n, c
  {
    if n == 0 then [] else [Top(c)] + Digits(c << 1, n - 1)
  }

  function WordBits(c: bv16): (r: Register) {
    Digits(c, 16)
  }

  function ByteBits(b: bv8): (r: Bits)
    ensures |r| == 8
  {
    Digits((b as bv16) << 8, 8)
  }

  lemma TopOfXor(a: bv16, b: bv16)
    ensures Top(a ^ b) == (Top(a) != Top(b)) && (a ^ b) << 1 == (a << 1) ^ (b << 1)
  {
  }

  lemma {:induction false} DigitsOfXor(a: bv16, b: bv16, n: nat)
    ensures Digits(a ^ b, n) == Xor(Digits(a, n), Digits(b, n))
    decreases n
  {
    if n > 0 {
      TopOfXor(a, b);
      DigitsOfXor(a << 1, b << 1, n - 1);
      XorHead(Top(a), Top(b), Digits(a << 1, n - 1), Digits(b << 1, n - 1));
    }
  }

  lemma TwoDigits(c: bv16, n: nat)
    ensures Digits(c, n + 2) == [Top(c), Top(c << 1)] + Digits(c << 2, n)
  {
    assert (c << 1) << 1 == c << 2;
    assert Digits(c, n + 2) == [Top(c)] + Digits(c << 1, n + 1);
  }

  lemma {:induction false} DigitsSplit(c: bv16, m: nat, n: nat, d: bv16)
    requires d == Up(c, m)
    ensures Digits(c, m + n) == Digits(c, m) + Digits(d, n)
    decreases m
  {
    if m > 0 {
      DigitsSplit(c << 1, m - 1, n, d);
    }
  }

  function Up(c: bv16, n: nat): bv16
    decreases n, c
  {
    if n == 0 then c else Up(c << 1, n - 1)
  }

  lemma {:induction false} DigitsOfZero(n: nat)
    ensures Digits(0, n) == Zeros(n)
  {
    if n > 0 {
      var zero: bv16 := 0;
      assert zero << 1 == 0;
      DigitsOfZero(n - 1);
    }
  }

  lemma UpByFour(c: bv16, n: nat)
    ensures Up(c, n + 4) == Up(c << 4, n)
  {
    assert Up(c, n + 4) == Up(c << 1, n + 3) == Up((c << 1) << 1, n + 2) == Up(((c << 1) << 1) << 1, n + 1);
    assert (((c << 1) << 1) << 1) << 1 == c << 4;
  }

  lemma UpByBytes(c: bv16)
    ensures Up(c, 8) == c << 8 && Up(c, 16) == 0
  {
    UpByFour(c, 4);
    UpByFour(c << 4, 0);
    assert (c << 4) << 4 == c << 8;
    UpByFour(c, 12);
    UpByFour(c << 4, 8);
    UpByFour(c << 8, 4);
    UpByFour(c << 12, 0);
    assert (c << 8) << 4 == c << 12 && (c << 12) << 4 == 0;
  }

  /** The generator without its leading coefficient. */
  function Coefficients(): (r: Register) {
    seq(16, i requires 0 <= i < 16 => Generator(i + 1))
  }

  lemma DigitPair(c: bv16, pair: Bits, d: bv16, n: nat)
    requires |pair| == 2 && d == c << 2 && pair[0] == Top(c) && pair[1] == Top(c << 1)
    ensures Digits(c, n + 2) == pair + Digits(d, n)
  {
    TwoDigits(c, n);
  }

  lemma GeneratorPairs(g: bv16, zeros: Bits, one: Bits, two: Bits)
    requires g == 0x1021 && zeros == [false, false] && one == [false, true] && two == [true, false]
    ensures Digits(g, 16) == zeros + (one + (zeros + (zeros + (zeros + (two + (zeros + (one + [])))))))
  {
    DigitPair(g << 14, one, 0, 0);
    DigitPair(g << 12, zeros, g << 14, 2);
    DigitPair(g << 10, two, g << 12, 4);
    DigitPair(g << 8, zeros, g << 10, 6);
    DigitPair(g << 6, zeros, g << 8, 8);
    DigitPair(g << 4, zeros, g << 6, 10);
    DigitPair(g << 2, one, g << 4, 12);
    DigitPair(g, zeros, g << 2, 14);
  }

  lemma PairsAreCoefficients(zeros: Bits, one: Bits, two: Bits)
    requires zeros == [false, false] && one == [false, true] && two == [true, false]
    ensures zeros + (one + (zeros + (zeros + (zeros + (two + (zeros + (one + []))))))) == Coefficients()
  {
  }

  lemma GeneratorDigits()
    ensures Digits(0x1021, 16) == Coefficients()
  {
    GeneratorPairs(0x1021, [false, false], [false, true], [true, false]);
    PairsAreCoefficients([false, false], [false, true], [true, false]);
  }

  // ---- The table ----

  function Multiple(subtract: bool): bv16 {
    if subtract then 0x1021 else 0
  }

  function Next(c: bv16, subtract: bool): bv16 {
    (c << 1) ^ Multiple(subtract)
  }

  function Shift(c: bv16, bit: bool): bv16 {
    Next(c, Top(c) != bit)
  }

  function Shifts(c: bv16, w: bv16, n: nat): bv16
    decreases n, c
  {
    if n == 0 then c else Shifts(Shift(c, Top(w)), w << 1, n - 1)
  }

  function Closed(i: bv8): bv16 {
    var t := (i ^ (i >> 4)) as bv16;
    (t << 12) ^ (t << 5) ^ t
  }

  lemma ShiftsByFour(c: bv16, w: bv16, n: nat)
    ensures Shifts(c, w, n + 4)
         == Shifts(Shift(Shift(Shift(Shift(c, Top(w)), Top(w << 1)), Top(w << 2)), Top(w << 3)), w << 4, n)
  {
    assert (w << 1) << 1 == w << 2 && (w << 2) << 1 == w << 3 && (w << 3) << 1 == w << 4;
    var c1 := Shift(c, Top(w));
    var c2 := Shift(c1, Top(w << 1));
    var c3 := Shift(c2, Top(w << 2));
    assert Shifts(c, w, n + 4) == Shifts(c1, w << 1, n + 3) == Shifts(c2, w << 2, n + 2) == Shifts(c3, w << 3, n + 1);
  }

  lemma ByteTops(b: bv8)
    ensures var w := (b as bv16) << 8;
            && Top(w) == (b & 0x80 != 0) && Top(w << 1) == (b & 0x40 != 0)
            && Top(w << 2) == (b & 0x20 != 0) && Top(w << 3) == (b & 0x10 != 0)
            && Top((w << 4)) == (b & 8 != 0) && Top((w << 4) << 1) == (b & 4 != 0)
            && Top((w << 4) << 2) == (b & 2 != 0) && Top((w << 4) << 3) == (b & 1 != 0)
  {
  }

  function EightShifts(crc: bv16, b: bv8): bv16 {
    var high := Shift(Shift(Shift(Shift(crc, b & 0x80 != 0), b & 0x40 != 0), b & 0x20 != 0), b & 0x10 != 0);
    Shift(Shift(Shift(Shift(high, b & 8 != 0), b & 4 != 0), b & 2 != 0), b & 1 != 0)
  }

  lemma ShiftsOfByte(c: bv16, b: bv8)
    ensures Shifts(c, (b as bv16) << 8, 8) == EightShifts(c, b)
  {
    var w := (b as bv16) << 8;
    ByteTops(b);
    ShiftsByFour(c, w, 4);
    ShiftsByFour(Shift(Shift(Shift(Shift(c, Top(w)), Top(w << 1)), Top(w << 2)), Top(w << 3)), w << 4, 0);
  }

  lemma EightShiftsClosed(i: bv8)
    ensures EightShifts(0, i) == Closed(i)
  {
  }

  lemma TableClosed(i: bv8)
    ensures Table(i) == Closed(i)
  {
  }

  // ---- A shift of the word is a step of the division register ----

  lemma DigitsShiftUp(c: bv16)
    ensures Digits(c << 1, 16) == WordBits(c)[1..] + [false]
  {
    UpByBytes(c);
    DigitsSplit(c, 16, 1, 0);
    assert Digits(c, 17) == [Top(c)] + Digits(c << 1, 16);
    DigitsOfZero(1);
    assert Digits(c << 1, 16) == Digits(c, 17)[1..];
  }

  lemma StepSplits(r: Register, bit: bool)
    ensures Step(r, bit) == Xor(r[1..] + [false], if r[0] != bit then Coefficients() else Zeros(16))
  {
  }

  lemma MultipleDigits(subtract: bool)
    ensures Digits(Multiple(subtract), 16) == if subtract then Coefficients() else Zeros(16)
  {
    if subtract {
      GeneratorDigits();
    } else {
      DigitsOfZero(16);
    }
  }

  lemma SumDigits(c: bv16, a: bv16, b: bv16, n: nat)
    requires c == a ^ b
    ensures Digits(c, n) == Xor(Digits(a, n), Digits(b, n))
  {
    DigitsOfXor(a, b, n);
  }

  lemma ShiftUpAndAdd(c: bv16, bit: bool, up: bv16, multiple: bv16, next: bv16)
    requires up == c << 1 && next == up ^ multiple
    requires Digits(multiple, 16) == if Top(c) != bit then Coefficients() else Zeros(16)
    ensures WordBits(next) == Step(WordBits(c), bit)
  {
    SumDigits(next, up, multiple, 16);
    DigitsShiftUp(c);
    StepSplits(WordBits(c), bit);
  }

  lemma ShiftIsStep(c: bv16, bit: bool)
    ensures WordBits(Shift(c, bit)) == Step(WordBits(c), bit)
  {
    MultipleDigits(Top(c) != bit);
    ShiftUpAndAdd(c, bit, c << 1, Multiple(Top(c) != bit), Shift(c, bit));
  }

  lemma {:induction false} ShiftsFeed(c: bv16, w: bv16, n: nat)
    ensures WordBits(Shifts(c, w, n)) == Feed(WordBits(c), Digits(w, n))
    decreases n
  {
    if n > 0 {
      ShiftsFeed(Shift(c, Top(w)), w << 1, n - 1);
      ShiftIsStep(c, Top(w));
    }
  }

  /** Every entry of the table is the register after its index was fed into a cleared one. */
  lemma TableIsFeed(i: bv8)
    ensures WordBits(Table(i)) == Feed(Zeros(16), ByteBits(i))
  {
    TableClosed(i);
    EightShiftsClosed(i);
    ShiftsOfByte(0, i);
    ShiftsFeed(0, (i as bv16) << 8, 8);
    DigitsOfZero(16);
  }

  // ---- A byte at a time ----

  function Index(crc: bv16, b: bv8): bv8 {
    (((crc >> 8) ^ (b as bv16)) & 0x00FF) as bv8
  }

  function TableStep(crc: bv16, b: bv8): bv16 {
    (crc << 8) ^ Table(Index(crc, b))
  }

  lemma TwoNoDigits(c: bv16, n: nat)
    requires c < 0x4000 && Digits(c << 2, n) == Zeros(n)
    ensures Digits(c, n + 2) == Zeros(n + 2)
  {
    TwoDigits(c, n);
    assert !Top(c) && !Top(c << 1);
  }

  lemma LowByteHasNoHighDigits(w: bv16)
    ensures Digits(w & 0xFF, 8) == Zeros(8)
  {
    var low := w & 0xFF;
    TwoNoDigits(low << 6, 0);
    assert (low << 2) << 2 == low << 4 && (low << 4) << 2 == low << 6;
    TwoNoDigits(low << 4, 2);
    TwoNoDigits(low << 2, 4);
    TwoNoDigits(low, 6);
  }

  lemma HighDigits(w: bv16)
    ensures Digits(w & 0xFF00, 8) == Digits(w, 8)
  {
    LowByteHasNoHighDigits(w);
    DigitsOfXor(w & 0xFF00, w & 0xFF, 8);
    assert w == (w & 0xFF00) ^ (w & 0xFF);
  }

  lemma IndexWord(crc: bv16, b: bv8)
    ensures (Index(crc, b) as bv16) << 8 == (crc ^ ((b as bv16) << 8)) & 0xFF00
  {
  }

  lemma HighByteBits(i: bv8, w: bv16)
    requires (i as bv16) << 8 == w & 0xFF00
    ensures ByteBits(i) == Digits(w, 8)
  {
    HighDigits(w);
  }

  lemma SumByteBits(i: bv8, w: bv16, a: bv16, b: bv16)
    requires w == a ^ b && (i as bv16) << 8 == w & 0xFF00
    ensures ByteBits(i) == Xor(Digits(a, 8), Digits(b, 8))
  {
    HighByteBits(i, w);
    SumDigits(w, a, b, 8);
  }

  lemma IndexBits(crc: bv16, b: bv8, index: bv8)
    requires (index as bv16) << 8 == (crc ^ ((b as bv16) << 8)) & 0xFF00
    ensures ByteBits(index) == Xor(Digits(crc, 8), ByteBits(b))
  {
    SumByteBits(index, crc ^ ((b as bv16) << 8), crc, (b as bv16) << 8);
  }

  lemma WordHalves(crc: bv16)
    ensures WordBits(crc) == Digits(crc, 8) + Digits(crc << 8, 8)
            && WordBits(crc << 8) == Digits(crc << 8, 8) + Zeros(8)
  {
    UpByBytes(crc);
    UpByBytes(crc << 8);
    assert (crc << 8) << 8 == 0;
    DigitsSplit(crc, 8, 8, crc << 8);
    DigitsSplit(crc << 8, 8, 8, 0);
    DigitsOfZero(8);
  }

  lemma FeedThroughIndex(own: Bits, rest: Bits, byte: Bits, index: Bits)
    requires |own| == |rest| == |byte| == 8 && index == Xor(own, byte)
    ensures Feed(own + rest, byte) == Xor(rest + Zeros(8), Feed(Zeros(16), index))
  {
    FeedIsLinear(own + rest, Zeros(16), own, index);
    assert Xor(own + rest, Zeros(16)) == own + rest && Xor(own, index) == byte;
    OwnBitsShiftOut(own, rest);
  }

  lemma LookupFeeds(crc: bv16, b: bv8, index: bv8, up: bv16, entry: bv16, next: bv16)
    requires ByteBits(index) == Xor(Digits(crc, 8), ByteBits(b))
    requires WordBits(entry) == Feed(Zeros(16), ByteBits(index)) && up == crc << 8 && next == up ^ entry
    ensures WordBits(next) == Feed(WordBits(crc), ByteBits(b))
  {
    SumDigits(next, up, entry, 16);
    WordHalves(crc);
    FeedThroughIndex(Digits(crc, 8), Digits(up, 8), ByteBits(b), ByteBits(index));
  }

  /** One table lookup does what feeding the eight bits of the byte does. */
  lemma TableStepFeeds(crc: bv16, b: bv8)
    ensures WordBits(TableStep(crc, b)) == Feed(WordBits(crc), ByteBits(b))
  {
    IndexWord(crc, b);
    IndexBits(crc, b, Index(crc, b));
    TableIsFeed(Index(crc, b));
    LookupFeeds(crc, b, Index(crc, b), crc << 8, Table(Index(crc, b)), TableStep(crc, b));
  }

  function AllBits(m: seq<bv8>): (r: Bits)
    ensures |r| == 8 * |m|
  {
    if m == [] then [] else AllBits(m[..|m| - 1]) + ByteBits(m[|m| - 1])
  }

  function Crc(m: seq<bv8>): bv16 {
    if m == [] then 0 else TableStep(Crc(m[..|m| - 1]), m[|m| - 1])
  }

  lemma {:induction false} CrcIsFeed(m: seq<bv8>)
    ensures WordBits(Crc(m)) == Feed(Zeros(16), AllBits(m))
  {
    if m == [] {
      DigitsOfZero(16);
    } else {
      var init, last := m[..|m| - 1], m[|m| - 1];
      CrcIsFeed(init);
      TableStepFeeds(Crc(init), last);
      FeedConcat(Zeros(16), AllBits(init), ByteBits(last));
    }
  }

  /** The checksum is the remainder of long division of the message followed by sixteen zero bits. */
  lemma CrcIsRemainder(m: seq<bv8>)
    ensures WordBits(Crc(m)) == Remainder(AllBits(m) + Zeros(16))
  {
    CrcIsFeed(m);
    FeedDivides(AllBits(m));
  }

  /** crc16: a negative length reads nothing. */
  method Compute(buf: array<bv8>, len: int) returns (crc: bv16)
    requires len <= buf.Length
    ensures WordBits(crc) == Remainder(AllBits(buf[..if len < 0 then 0 else len]) + Zeros(16))
    ensures crc == Crc(buf[..if len < 0 then 0 else len])
  {
    crc := 0;
    var counter := 0;
    while counter < len
      invariant 0 <= counter && (counter <= len || counter == 0) && crc == Crc(buf[..counter])
    {
      assert buf[..counter + 1][..counter] == buf[..counter];
      crc := TableStep(crc, buf[counter]);
      counter := counter + 1;
    }
    CrcIsRemainder(buf[..counter]);
  }

  // ---- What the checksum tells apart ----

  function XorMessages(a: seq<bv8>, b: seq<bv8>): (r: seq<bv8>)
    requires |a| == |b|
    ensures |r| == |a|
  {
    seq(|a|, i requires 0 <= i < |a| => a[i] ^ b[i])
  }

  lemma ByteBitsOfXor(a: bv8, b: bv8)
    ensures ByteBits(a ^ b) == Xor(ByteBits(a), ByteBits(b))
  {
    assert ((a ^ b) as bv16) << 8 == ((a as bv16) << 8) ^ ((b as bv16) << 8);
    DigitsOfXor((a as bv16) << 8, (b as bv16) << 8, 8);
  }

  lemma XorConcat(a: Bits, b: Bits, c: Bits, d: Bits)
    requires |a| == |c| && |b| == |d|
    ensures Xor(a + b, c + d) == Xor(a, c) + Xor(b, d)
  {
  }

  lemma {:induction false} AllBitsOfXor(a: seq<bv8>, b: seq<bv8>)
    requires |a| == |b|
    ensures AllBits(XorMessages(a, b)) == Xor(AllBits(a), AllBits(b))
  {
    if a == [] {
    } else {
      var n := |a| - 1;
      AllBitsOfXor(a[..n], b[..n]);
      ByteBitsOfXor(a[n], b[n]);
      XorConcat(AllBits(a[..n]), ByteBits(a[n]), AllBits(b[..n]), ByteBits(b[n]));
      assert XorMessages(a, b)[..n] == XorMessages(a[..n], b[..n]);
    }
  }

  /** On messages of one length the checksum is linear. */
  lemma CrcIsLinear(a: seq<bv8>, b: seq<bv8>)
    requires |a| == |b|
    ensures WordBits(Crc(XorMessages(a, b))) == Xor(WordBits(Crc(a)), WordBits(Crc(b)))
  {
    CrcIsFeed(a);
    CrcIsFeed(b);
    CrcIsFeed(XorMessages(a, b));
    AllBitsOfXor(a, b);
    FeedIsLinear(Zeros(16), Zeros(16), AllBits(a), AllBits(b));
    assert Xor(Zeros(16), Zeros(16)) == Zeros(16);
  }

  /** Messages that differ only inside a window of at most sixteen bits have different checksums. */
  lemma BurstsAreDetected(a: seq<bv8>, b: seq<bv8>, before: Bits, wa: Bits, wb: Bits, after: Bits)
    requires AllBits(a) == before + wa + after && AllBits(b) == before + wb + after
    requires |wa| == |wb| <= 16 && wa != wb
    ensures Crc(a) != Crc(b)
  {
    if Crc(a) == Crc(b) {
      CrcIsFeed(a);
      CrcIsFeed(b);
      var r := Feed(Zeros(16), before);
      FeedConcat(Zeros(16), before + wa, after);
      FeedConcat(Zeros(16), before + wb, after);
      FeedConcat(Zeros(16), before, wa);
      FeedConcat(Zeros(16), before, wb);
      FeedIsInjective(Feed(r, wa), Feed(r, wb), after);
      ShortFeedIsInjective(r, wa, wb);
      assert false;
    }
  }

  lemma CheckBits(c: bv16)
    ensures ByteBits((c >> 8) as bv8) + ByteBits((c & 0xFF) as bv8) == WordBits(c)
  {
    WordHalves(c);
    HighDigits(c);
    assert (((c >> 8) as bv8) as bv16) << 8 == c & 0xFF00;
    assert (((c & 0xFF) as bv8) as bv16) << 8 == c << 8;
  }

  lemma TwoMoreBytes(m: seq<bv8>, high: bv8, low: bv8)
    ensures AllBits(m + [high, low]) == AllBits(m) + (ByteBits(high) + ByteBits(low))
  {
    assert (m + [high, low])[..|m| + 1] == m + [high] && (m + [high])[..|m|] == m;
    assert AllBits(m + [high, low]) == AllBits(m) + ByteBits(high) + ByteBits(low);
  }

  lemma OwnBitsClear(r: Register)
    ensures Feed(r, r) == Zeros(16)
  {
    OwnBitsShiftOut(r, []);
    assert r + [] == r;
  }

  /** A message followed by its checksum, high byte first, has checksum zero; no other two bytes do that. */
  lemma CheckedMeansZero(m: seq<bv8>, high: bv8, low: bv8)
    ensures WordBits(Crc(m + [high, low])) == Zeros(16) <==> ByteBits(high) + ByteBits(low) == WordBits(Crc(m))
  {
    var r := WordBits(Crc(m));
    CrcIsFeed(m);
    CrcIsFeed(m + [high, low]);
    TwoMoreBytes(m, high, low);
    FeedConcat(Zeros(16), AllBits(m), ByteBits(high) + ByteBits(low));
    OwnBitsClear(r);
    if Feed(r, ByteBits(high) + ByteBits(low)) == Zeros(16) {
      ShortFeedIsInjective(r, ByteBits(high) + ByteBits(low), r);
    }
  }
}
