/**
 * rjtiger.c, the compression function in its two compiled forms: with 64-bit shifts and the three passes
 * written out, and with 32-bit shifts and a loop that renames the variables between passes.  The four lookup
 * tables are arbitrary, and up to the block function so are the word operations between the shifts; the block
 * function has the processor's (`Machine`).
 */
module Tiger {

  type Sbox = bv8 -> bv64

  datatype Tables = Tables(t1: Sbox, t2: Sbox, t3: Sbox, t4: Sbox)

  type Operation = (bv64, bv64) -> bv64

  datatype Alu = Alu(xor: Operation, add: Operation, sub: Operation, mul: Operation, shl19: bv64 -> bv64,
                     shr23: bv64 -> bv64, not: bv64 -> bv64)

  function Xor(x: bv64, y: bv64): bv64 { x ^ y }
  function Add(x: bv64, y: bv64): bv64 { x + y }
  function Sub(x: bv64, y: bv64): bv64 { x - y }
  function Mul(x: bv64, y: bv64): bv64 { x * y }
  function Shl19(x: bv64): bv64 { x << 19 }
  function Shr23(x: bv64): bv64 { x >> 23 }
  function Not(x: bv64): bv64 { !x }

  /** 64-bit words that wrap around. */
  function Machine(): Alu {
    Alu(Xor, Add, Sub, Mul, Shl19, Shr23, Not)
  }

  datatype State = State(a: bv64, b: bv64, c: bv64)

  datatype Keys = Keys(x0: bv64, x1: bv64, x2: bv64, x3: bv64, x4: bv64, x5: bv64, x6: bv64, x7: bv64)

  // ---- The function itself ----

  function LowByte(w: bv64): bv8 {
    (w & 0xff) as bv8
  }

  function Xor4(m: Alu, a: bv64, b: bv64, c: bv64, d: bv64): bv64 {
    m.xor(m.xor(m.xor(a, b), c), d)
  }

  function EvenBytes(m: Alu, t: Tables, c: bv64): bv64 {
    Xor4(m, t.t1(LowByte(c)), t.t2(LowByte(c >> 16)), t.t3(LowByte(c >> 32)), t.t4(LowByte(c >> 48)))
  }

  function OddBytes(m: Alu, t: Tables, c: bv64): bv64 {
    Xor4(m, t.t4(LowByte(c >> 8)), t.t3(LowByte(c >> 24)), t.t2(LowByte(c >> 40)), t.t1(LowByte(c >> 56)))
  }

  function Round(m: Alu, t: Tables, s: State, x: bv64, mul: bv64): State {
    var c := m.xor(s.c, x);
    State(m.sub(s.a, EvenBytes(m, t, c)), m.mul(m.add(s.b, OddBytes(m, t, c)), mul), c)
  }

  /** The next round sees b, c, a in the places of a, b, c. */
  function Turn(s: State): State {
    State(s.b, s.c, s.a)
  }

  function Step(m: Alu, t: Tables, s: State, x: bv64, mul: bv64): State {
    Turn(Round(m, t, s, x, mul))
  }

  /** Eight rounds, turning after each; one more turn puts a, b and c back in their places. */
  function Pass(m: Alu, t: Tables, s: State, k: Keys, mul: bv64): State {
    var s1 := Step(m, t, s, k.x0, mul);
    var s2 := Step(m, t, s1, k.x1, mul);
    var s3 := Step(m, t, s2, k.x2, mul);
    var s4 := Step(m, t, s3, k.x3, mul);
    var s5 := Step(m, t, s4, k.x4, mul);
    var s6 := Step(m, t, s5, k.x5, mul);
    var s7 := Step(m, t, s6, k.x6, mul);
    var s8 := Step(m, t, s7, k.x7, mul);
    Turn(s8)
  }

  function KeySchedule(m: Alu, k: Keys): Keys {
    var y0 := m.sub(k.x0, m.xor(k.x7, 0xA5A5B5A5A5A5A7A5));
    var y1 := m.xor(k.x1, y0);
    var y2 := m.add(k.x2, y1);
    var y3 := m.sub(k.x3, m.xor(y2, m.shl19(m.not(y1))));
    var y4 := m.xor(k.x4, y3);
    var y5 := m.add(k.x5, y4);
    var y6 := m.sub(k.x6, m.xor(y5, m.shr23(m.not(y4))));
    var y7 := m.xor(k.x7, y6);
    var z0 := m.add(y0, y7);
    var z1 := m.sub(y1, m.xor(z0, m.shl19(m.not(y7))));
    var z2 := m.xor(y2, z1);
    var z3 := m.add(y3, z2);
    var z4 := m.sub(y4, m.xor(z3, m.shr23(m.not(z2))));
    var z5 := m.xor(y5, z4);
    var z6 := m.add(y6, z5);
    var z7 := m.sub(y7, m.xor(z6, 0x0123456789ABCDEF));
    Keys(z0, z1, z2, z3, z4, z5, z6, z7)
  }

  // ---- What the key schedule, a round and the last step lose: nothing ----

  /** Words that wrap around: adding undoes subtracting, and an exclusive or undoes itself. */
  ghost predicate Lawful(m: Alu) {
    && (forall x, y :: m.sub(m.add(x, y), y) == x) && (forall x, y :: m.add(m.sub(x, y), y) == x)
    && (forall x, y :: m.xor(m.xor(x, y), y) == x)
  }

  lemma WordsUndo(x: bv64, y: bv64)
    ensures (x + y) - y == x && (x - y) + y == x && (x ^ y) ^ y == x
  {
  }

  lemma SubOfSum(x: bv64, y: bv64)
    ensures Sub(x + y, y) == x
  {
    WordsUndo(x, y);
  }

  lemma AddOfDifference(x: bv64, y: bv64)
    ensures Add(x - y, y) == x
  {
    WordsUndo(x, y);
  }

  lemma XorOfXor(x: bv64, y: bv64)
    ensures Xor(x ^ y, y) == x
  {
    WordsUndo(x, y);
  }

  lemma SubAfterAdd(x: bv64, y: bv64)
    ensures Sub(Add(x, y), y) == x
  {
    SubOfSum(x, y);
    assert Add(x, y) == x + y;
  }

  lemma AddAfterSub(x: bv64, y: bv64)
    ensures Add(Sub(x, y), y) == x
  {
    AddOfDifference(x, y);
    assert Sub(x, y) == x - y;
  }

  lemma XorAfterXor(x: bv64, y: bv64)
    ensures Xor(Xor(x, y), y) == x
  {
    XorOfXor(x, y);
    assert Xor(x, y) == x ^ y;
  }

  lemma MachineApplies(m: Alu, x: bv64, y: bv64)
    requires m == Machine()
    ensures m.add(x, y) == Add(x, y) && m.sub(x, y) == Sub(x, y) && m.xor(x, y) == Xor(x, y) && m.mul(x, y) == Mul(x, y)
  {
  }

  lemma MachineUndoes(m: Alu, x: bv64, y: bv64)
    requires m == Machine()
    ensures m.sub(m.add(x, y), y) == x && m.add(m.sub(x, y), y) == x && m.xor(m.xor(x, y), y) == x
  {
    SubAfterAdd(x, y);
    AddAfterSub(x, y);
    XorAfterXor(x, y);
    MachineApplies(m, x, y);
    MachineApplies(m, Add(x, y), y);
    MachineApplies(m, Sub(x, y), y);
    MachineApplies(m, Xor(x, y), y);
  }

  lemma MachineIsLawful(m: Alu)
    requires m == Machine()
    ensures Lawful(m)
  {
    forall x, y
      ensures m.sub(m.add(x, y), y) == x && m.add(m.sub(x, y), y) == x && m.xor(m.xor(x, y), y) == x
    {
      MachineUndoes(m, x, y);
    }
  }

  lemma MachineShifts()
    ensures Machine().shl19(1) == 0x8_0000 && Machine().shr23(0x80_0000) == 1
    ensures Machine().not(0) == 0xffff_ffff_ffff_ffff
    ensures Machine().add(2, 3) == 5 && Machine().sub(2, 3) == 0xffff_ffff_ffff_ffff && Machine().mul(2, 3) == 6
    ensures Machine().xor(6, 3) == 5
  {
  }

  /** The words before the schedule, from the words after it, last assignment first. */
  function UndoKeySchedule(m: Alu, k: Keys): Keys {
    var x7 := m.add(k.x7, m.xor(k.x6, 0x0123456789ABCDEF));
    var x6 := m.sub(k.x6, k.x5);
    var x5 := m.xor(k.x5, k.x4);
    var x4 := m.add(k.x4, m.xor(k.x3, m.shr23(m.not(k.x2))));
    var x3 := m.sub(k.x3, k.x2);
    var x2 := m.xor(k.x2, k.x1);
    var x1 := m.add(k.x1, m.xor(k.x0, m.shl19(m.not(x7))));
    var x0 := m.sub(k.x0, x7);
    var w7 := m.xor(x7, x6);
    var w6 := m.add(x6, m.xor(x5, m.shr23(m.not(x4))));
    var w5 := m.sub(x5, x4);
    var w4 := m.xor(x4, x3);
    var w3 := m.add(x3, m.xor(x2, m.shl19(m.not(x1))));
    var w2 := m.sub(x2, x1);
    var w1 := m.xor(x1, x0);
    Keys(m.add(x0, m.xor(w7, 0xA5A5B5A5A5A5A7A5)), w1, w2, w3, w4, w5, w6, w7)
  }

  lemma AddUndone(m: Alu, x: bv64, y: bv64)
    requires Lawful(m)
    ensures m.sub(m.add(x, y), y) == x
  {
  }

  lemma SubUndone(m: Alu, x: bv64, y: bv64)
    requires Lawful(m)
    ensures m.add(m.sub(x, y), y) == x
  {
  }

  lemma XorUndone(m: Alu, x: bv64, y: bv64)
    requires Lawful(m)
    ensures m.xor(m.xor(x, y), y) == x
  {
  }

  /** The first eight assignments of the schedule. */
  function FirstHalf(m: Alu, k: Keys): Keys {
    var y0 := m.sub(k.x0, m.xor(k.x7, 0xA5A5B5A5A5A5A7A5));
    var y1 := m.xor(k.x1, y0);
    var y2 := m.add(k.x2, y1);
    var y3 := m.sub(k.x3, m.xor(y2, m.shl19(m.not(y1))));
    var y4 := m.xor(k.x4, y3);
    var y5 := m.add(k.x5, y4);
    var y6 := m.sub(k.x6, m.xor(y5, m.shr23(m.not(y4))));
    Keys(y0, y1, y2, y3, y4, y5, y6, m.xor(k.x7, y6))
  }

  /** The words after the first half, from those after the second. */
  ghost predicate FromSecond(m: Alu, y: Keys, z: Keys) {
    && y.x7 == m.add(z.x7, m.xor(z.x6, 0x0123456789ABCDEF))
    && y.x6 == m.sub(z.x6, z.x5)
    && y.x5 == m.xor(z.x5, z.x4)
    && y.x4 == m.add(z.x4, m.xor(z.x3, m.shr23(m.not(z.x2))))
    && y.x3 == m.sub(z.x3, z.x2)
    && y.x2 == m.xor(z.x2, z.x1)
    && y.x1 == m.add(z.x1, m.xor(z.x0, m.shl19(m.not(y.x7))))
    && y.x0 == m.sub(z.x0, y.x7)
  }

  /** The words before the schedule, from those after its first half. */
  ghost predicate FromFirst(m: Alu, k: Keys, y: Keys) {
    && k.x7 == m.xor(y.x7, y.x6)
    && k.x6 == m.add(y.x6, m.xor(y.x5, m.shr23(m.not(y.x4))))
    && k.x5 == m.sub(y.x5, y.x4)
    && k.x4 == m.xor(y.x4, y.x3)
    && k.x3 == m.add(y.x3, m.xor(y.x2, m.shl19(m.not(y.x1))))
    && k.x2 == m.sub(y.x2, y.x1)
    && k.x1 == m.xor(y.x1, y.x0)
    && k.x0 == m.add(y.x0, m.xor(k.x7, 0xA5A5B5A5A5A5A7A5))
  }

  lemma SecondHalfUndone(m: Alu, k: Keys, y: Keys, z: Keys)
    requires Lawful(m) && y == FirstHalf(m, k) && z == KeySchedule(m, k)
    ensures FromSecond(m, y, z)
  {
    AddUndone(m, y.x0, y.x7);
    SubUndone(m, y.x1, m.xor(z.x0, m.shl19(m.not(y.x7))));
    XorUndone(m, y.x2, z.x1);
    AddUndone(m, y.x3, z.x2);
    SubUndone(m, y.x4, m.xor(z.x3, m.shr23(m.not(z.x2))));
    XorUndone(m, y.x5, z.x4);
    AddUndone(m, y.x6, z.x5);
    SubUndone(m, y.x7, m.xor(z.x6, 0x0123456789ABCDEF));
  }

  lemma FirstHalfUndone(m: Alu, k: Keys, y: Keys)
    requires Lawful(m) && y == FirstHalf(m, k)
    ensures FromFirst(m, k, y)
  {
    SubUndone(m, k.x0, m.xor(k.x7, 0xA5A5B5A5A5A5A7A5));
    XorUndone(m, k.x1, y.x0);
    AddUndone(m, k.x2, y.x1);
    SubUndone(m, k.x3, m.xor(y.x2, m.shl19(m.not(y.x1))));
    XorUndone(m, k.x4, y.x3);
    AddUndone(m, k.x5, y.x4);
    SubUndone(m, k.x6, m.xor(y.x5, m.shr23(m.not(y.x4))));
    XorUndone(m, k.x7, y.x6);
  }

  lemma Assembled(m: Alu, k: Keys, y: Keys, z: Keys)
    requires FromSecond(m, y, z) && FromFirst(m, k, y)
    ensures UndoKeySchedule(m, z) == k
  {
  }

  /** The key schedule can be undone, so no two blocks of words lead to the same schedule. */
  lemma KeyScheduleUndone(m: Alu, k: Keys)
    requires Lawful(m)
    ensures UndoKeySchedule(m, KeySchedule(m, k)) == k
  {
    var y, z := FirstHalf(m, k), KeySchedule(m, k);
    SecondHalfUndone(m, k, y, z);
    FirstHalfUndone(m, k, y);
    Assembled(m, k, y, z);
  }

  /** Of a round: what `a` and `c` were, and what `b` was multiplied from; the tables see the bytes of the new `c`. */
  lemma RoundUndone(m: Alu, t: Tables, s: State, x: bv64, mul: bv64)
    requires Lawful(m)
    ensures var r := Round(m, t, s, x, mul);
            var even := Xor4(m, t.t1(LowByte(r.c)), t.t2(LowByte(r.c >> 16)), t.t3(LowByte(r.c >> 32)),
                             t.t4(LowByte(r.c >> 48)));
            var odd := Xor4(m, t.t4(LowByte(r.c >> 8)), t.t3(LowByte(r.c >> 24)), t.t2(LowByte(r.c >> 40)),
                            t.t1(LowByte(r.c >> 56)));
            m.xor(r.c, x) == s.c && m.add(r.a, even) == s.a && r.b == m.mul(m.add(s.b, odd), mul)
  {
    var c := m.xor(s.c, x);
    XorUndone(m, s.c, x);
    SubUndone(m, s.a, EvenBytes(m, t, c));
  }

  /** The last step keeps the old state apart from the passes' result in each word's own way. */
  lemma FeedForwardUndone(m: Alu, s: State, from: State)
    requires Lawful(m)
    ensures var r := FeedForward(m, s, from);
            State(m.xor(r.a, from.a), m.add(r.b, from.b), m.sub(r.c, from.c)) == s
  {
    XorUndone(m, s.a, from.a);
    SubUndone(m, s.b, from.b);
    AddUndone(m, s.c, from.c);
  }

  /** key_schedule, on variables */
  method ScheduleKeys(m: Alu, k: Keys) returns (r: Keys)
    ensures r == KeySchedule(m, k)
  {
    var x0, x1, x2, x3, x4, x5, x6, x7 := k.x0, k.x1, k.x2, k.x3, k.x4, k.x5, k.x6, k.x7;
    x0 := m.sub(x0, m.xor(x7, 0xA5A5B5A5A5A5A7A5));
    x1 := m.xor(x1, x0);
    x2 := m.add(x2, x1);
    x3 := m.sub(x3, m.xor(x2, m.shl19(m.not(x1))));
    x4 := m.xor(x4, x3);
    x5 := m.add(x5, x4);
    x6 := m.sub(x6, m.xor(x5, m.shr23(m.not(x4))));
    x7 := m.xor(x7, x6);
    x0 := m.add(x0, x7);
    x1 := m.sub(x1, m.xor(x0, m.shl19(m.not(x7))));
    x2 := m.xor(x2, x1);
    x3 := m.add(x3, x2);
    x4 := m.sub(x4, m.xor(x3, m.shr23(m.not(x2))));
    x5 := m.xor(x5, x4);
    x6 := m.add(x6, x5);
    x7 := m.sub(x7, m.xor(x6, 0x0123456789ABCDEF));
    r := Keys(x0, x1, x2, x3, x4, x5, x6, x7);
  }

  /** round for x86-64 */
  method RoundX64(m: Alu, t: Tables, a: bv64, b: bv64, c: bv64, x: bv64, mul: bv64)
    returns (a': bv64, b': bv64, c': bv64)
    ensures State(a', b', c') == Round(m, t, State(a, b, c), x, mul)
  {
    c' := m.xor(c, x);
    a' := m.sub(a, Xor4(m, t.t1(LowByte(c')), t.t2(LowByte(c' >> 16)), t.t3(LowByte(c' >> 32)),
                        t.t4(LowByte(c' >> 48))));
    b' := m.add(b, Xor4(m, t.t4(LowByte(c' >> 8)), t.t3(LowByte(c' >> 24)), t.t2(LowByte(c' >> 40)),
                        t.t1(LowByte(c' >> 56))));
    b' := m.mul(b', mul);
  }

  function Low32(w: bv64): bv32 {
    (w & 0xffff_ffff) as bv32
  }

  function LowByte32(w: bv32): bv8 {
    (w & 0xff) as bv8
  }

  lemma ShiftedHalves(c: bv64)
    ensures LowByte32(Low32(c) >> 16) == LowByte(c >> 16) && LowByte32(Low32(c) >> 8) == LowByte(c >> 8)
    ensures LowByte32(Low32(c) >> 24) == LowByte(c >> 24)
    ensures LowByte32(Low32(c >> 32) >> 16) == LowByte(c >> 48) && LowByte32(Low32(c >> 32) >> 8) == LowByte(c >> 40)
    ensures LowByte32(Low32(c >> 32) >> 24) == LowByte(c >> 56)
  {
  }

  /** round for 32-bit machines */
  method RoundIA32(m: Alu, t: Tables, a: bv64, b: bv64, c: bv64, x: bv64, mul: bv64)
    returns (a': bv64, b': bv64, c': bv64)
    ensures State(a', b', c') == Round(m, t, State(a, b, c), x, mul)
  {
    c' := m.xor(c, x);
    ShiftedHalves(c');
    a' := m.sub(a, Xor4(m, t.t1(LowByte(c')), t.t2(LowByte32(Low32(c') >> 16)), t.t3(LowByte(c' >> 32)),
                        t.t4(LowByte32(Low32(c' >> 32) >> 16))));
    b' := m.add(b, Xor4(m, t.t4(LowByte32(Low32(c') >> 8)), t.t3(LowByte32(Low32(c') >> 24)),
                        t.t2(LowByte32(Low32(c' >> 32) >> 8)), t.t1(LowByte32(Low32(c' >> 32) >> 24))));
    b' := m.mul(b', mul);
  }

  /** pass, with 64-bit shifts */
  method PassX64(m: Alu, t: Tables, a: bv64, b: bv64, c: bv64, k: Keys, mul: bv64)
    returns (a': bv64, b': bv64, c': bv64)
    ensures State(a', b', c') == Pass(m, t, State(a, b, c), k, mul)
  {
    a', b', c' := a, b, c;
    a', b', c' := RoundX64(m, t, a', b', c', k.x0, mul);
    b', c', a' := RoundX64(m, t, b', c', a', k.x1, mul);
    c', a', b' := RoundX64(m, t, c', a', b', k.x2, mul);
    a', b', c' := RoundX64(m, t, a', b', c', k.x3, mul);
    b', c', a' := RoundX64(m, t, b', c', a', k.x4, mul);
    c', a', b' := RoundX64(m, t, c', a', b', k.x5, mul);
    a', b', c' := RoundX64(m, t, a', b', c', k.x6, mul);
    b', c', a' := RoundX64(m, t, b', c', a', k.x7, mul);
  }

  /** pass, with 32-bit shifts */
  method PassIA32(m: Alu, t: Tables, a: bv64, b: bv64, c: bv64, k: Keys, mul: bv64)
    returns (a': bv64, b': bv64, c': bv64)
    ensures State(a', b', c') == Pass(m, t, State(a, b, c), k, mul)
  {
    a', b', c' := a, b, c;
    a', b', c' := RoundIA32(m, t, a', b', c', k.x0, mul);
    b', c', a' := RoundIA32(m, t, b', c', a', k.x1, mul);
    c', a', b' := RoundIA32(m, t, c', a', b', k.x2, mul);
    a', b', c' := RoundIA32(m, t, a', b', c', k.x3, mul);
    b', c', a' := RoundIA32(m, t, b', c', a', k.x4, mul);
    c', a', b' := RoundIA32(m, t, c', a', b', k.x5, mul);
    a', b', c' := RoundIA32(m, t, a', b', c', k.x6, mul);
    b', c', a' := RoundIA32(m, t, b', c', a', k.x7, mul);
  }

  // ---- Three passes ----

  function Multiplier(i: nat): bv64 {
    if i == 0 then 5 else if i == 1 then 7 else 9
  }

  /** tmp = a, a = c, c = b, b = tmp */
  function Back(s: State): State {
    State(s.c, s.a, s.b)
  }

  type Passing = (State, Keys, bv64) -> State

  type Scheduling = Keys -> Keys

  /** The passes from number `i` on, with the variables renamed after each. */
  function Looped(pass: Passing, schedule: Scheduling, s: State, k: Keys, i: nat): State
    requires i <= 3
    decreases 3 - i, s
  {
    if i == 3 then s
    else
      var keys := if i != 0 then schedule(k) else k;
      Looped(pass, schedule, Back(pass(s, keys, Multiplier(i))), keys, i + 1)
  }

  /** pass(a, b, c), pass(c, a, b), pass(b, c, a) */
  function Unrolled(pass: Passing, schedule: Scheduling, s: State, k: Keys): State {
    var p := pass(s, k, 5);
    var k1 := schedule(k);
    var q := pass(State(p.c, p.a, p.b), k1, 7);
    var r := pass(State(q.c, q.a, q.b), schedule(k1), 9);
    State(r.c, r.a, r.b)
  }

  function FeedForward(m: Alu, s: State, from: State): State {
    State(m.xor(s.a, from.a), m.sub(s.b, from.b), m.add(s.c, from.c))
  }

  /** The two compiled forms of the compression function agree on every state, block and choice of tables. */
  lemma LoopedIsUnrolled(pass: Passing, schedule: Scheduling, s: State, k: Keys)
    ensures Looped(pass, schedule, s, k, 0) == Unrolled(pass, schedule, s, k)
  {
    var p := Back(pass(s, k, 5));
    var k1 := schedule(k);
    var q := Back(pass(p, k1, 7));
    var k2 := schedule(k1);
    var r := Back(pass(q, k2, 9));
    assert Looped(pass, schedule, r, k2, 3) == r;
    assert Looped(pass, schedule, q, k1, 2) == r;
    assert Looped(pass, schedule, p, k, 1) == r;
  }

  function PassWith(m: Alu, t: Tables): Passing {
    (s, k, mul) => Pass(m, t, s, k, mul)
  }

  function ScheduleWith(m: Alu): Scheduling {
    k => KeySchedule(m, k)
  }

  /** What one call makes of the state. */
  function Compress(m: Alu, t: Tables, s: State, block: seq<bv64>): State
    requires |block| == 8
  {
    FeedForward(m, Unrolled(PassWith(m, t), ScheduleWith(m), s, Loaded(block)), s)
  }

  function Loaded(block: seq<bv64>): Keys
    requires |block| == 8
  {
    Keys(block[0], block[1], block[2], block[3], block[4], block[5], block[6], block[7])
  }

  /** The loop over the passes, for 32-bit machines */
  method PassesIA32(m: Alu, t: Tables, s: State, k0: Keys) returns (a: bv64, b: bv64, c: bv64)
    ensures State(a, b, c) == Unrolled(PassWith(m, t), ScheduleWith(m), s, k0)
  {
    a, b, c := s.a, s.b, s.c;
    var k, i := k0, 0;
    while i < 3
      invariant i <= 3
      invariant Looped(PassWith(m, t), ScheduleWith(m), State(a, b, c), k, i)
            == Looped(PassWith(m, t), ScheduleWith(m), s, k0, 0)
    {
      if i != 0 {
        k := ScheduleKeys(m, k);
      }
      a, b, c := PassIA32(m, t, a, b, c, k, if i == 0 then 5 else if i == 1 then 7 else 9);
      var tmp := a;
      a := c;
      c := b;
      b := tmp;
      i := i + 1;
    }
    LoopedIsUnrolled(PassWith(m, t), ScheduleWith(m), s, k0);
  }

  /** The passes written out, for x86-64 */
  method PassesX64(m: Alu, t: Tables, s: State, k0: Keys) returns (a: bv64, b: bv64, c: bv64)
    ensures State(a, b, c) == Unrolled(PassWith(m, t), ScheduleWith(m), s, k0)
  {
    var k := k0;
    a, b, c := PassX64(m, t, s.a, s.b, s.c, k, 5);
    k := ScheduleKeys(m, k);
    c, a, b := PassX64(m, t, c, a, b, k, 7);
    k := ScheduleKeys(m, k);
    b, c, a := PassX64(m, t, b, c, a, k, 9);
  }

  /** rhash_tiger_process_block with any word operations, in the form the compiler chose */
  method ProcessBlockWith(m: Alu, t: Tables, x64: bool, state: array<bv64>, block: array<bv64>)
    requires state.Length == 3 && block.Length == 8 && state != block
    modifies state
    ensures State(state[0], state[1], state[2])
         == Compress(m, t, State(old(state[0]), old(state[1]), old(state[2])), old(block[..]))
  {
    var k, s := Loaded(block[..]), State(state[0], state[1], state[2]);
    var a, b, c;
    if x64 {
      a, b, c := PassesX64(m, t, s, k);
    } else {
      a, b, c := PassesIA32(m, t, s, k);
    }
    state[0] := m.xor(a, state[0]);
    state[1] := m.sub(b, state[1]);
    state[2] := m.add(c, state[2]);
  }

  /** rhash_tiger_process_block on a little-endian machine */
  method ProcessBlock(t: Tables, x64: bool, state: array<bv64>, block: array<bv64>)
    requires state.Length == 3 && block.Length == 8 && state != block
    modifies state
    ensures State(state[0], state[1], state[2])
         == Compress(Machine(), t, State(old(state[0]), old(state[1]), old(state[2])), old(block[..]))
  {
    ProcessBlockWith(Machine(), t, x64, state, block);
  }
}
