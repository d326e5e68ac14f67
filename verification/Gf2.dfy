/**
 * Polynomials over the two-element field, as coefficients from the highest power down, and their remainders
 * modulo x^16 + x^12 + x^5 + 1: by schoolbook long division, and by a 16-bit register fed one coefficient at a
 * time.
 */
module Gf2 {

  type Bits = seq<bool>

  type Register = r: Bits | |r| == 16 witness Zeros(16)

  function Xor(a: Bits, b: Bits): (r: Bits)
    requires |a| == |b|
    ensures |r| == |a|
  {
    seq(|a|, i requires 0 <= i < |a| => a[i] != b[i])
  }

  lemma XorHead(x: bool, y: bool, a: Bits, b: Bits)
    requires |a| == |b|
    ensures Xor([x] + a, [y] + b) == [x != y] + Xor(a, b)
  {
  }

  function Zeros(n: nat): (r: Bits)
    ensures |r| == n && forall i :: 0 <= i < n ==> !r[i]
  {
    seq(n, _ => false)
  }

  /** The coefficient of x^(16 - i) in the generator. */
  predicate Generator(i: nat) {
    i == 0 || i == 4 || i == 11 || i == 16
  }

  /** Subtracts the generator, aligned with the leading coefficient, and drops that coefficient. */
  function Reduce(dividend: Bits): (r: Bits)
    requires |dividend| > 16
    ensures |r| == |dividend| - 1
  {
    seq(|dividend| - 1, i requires 0 <= i < |dividend| - 1 => dividend[i + 1] != (dividend[0] && Generator(i + 1)))
  }

  /** Long division: reduce until fewer coefficients are left than the generator has. */
  function Remainder(dividend: Bits): (r: Register)
    requires |dividend| >= 16
    decreases |dividend|
  {
    if |dividend| == 16 then dividend else Remainder(Reduce(dividend))
  }

  /** One step of the division register: the coefficient met with the one shifted out decides the subtraction. */
  function Step(r: Register, bit: bool): (next: Register) {
    seq(16, i requires 0 <= i < 16 => (i < 15 && r[i + 1]) != ((r[0] != bit) && Generator(i + 1)))
  }

  function Feed(r: Register, bits: Bits): (next: Register)
    decreases |bits|
  {
    if bits == [] then r else Feed(Step(r, bits[0]), bits[1..])
  }

  lemma {:induction false} FeedConcat(r: Register, a: Bits, b: Bits)
    ensures Feed(r, a + b) == Feed(Feed(r, a), b)
    decreases |a|
  {
    if a == [] {
      assert a + b == b;
    } else {
      assert (a + b)[1..] == a[1..] + b;
      FeedConcat(Step(r, a[0]), a[1..], b);
    }
  }

  // ---- The register divides ----

  /** `r` added to the leading coefficients. */
  function AddInFront(r: Register, dividend: Bits): (s: Bits)
    requires |dividend| >= 16
    ensures |s| == |dividend|
  {
    seq(|dividend|, i requires 0 <= i < |dividend| => (i < 16 && r[i]) != dividend[i])
  }

  lemma ReduceIsStep(r: Register, bit: bool, rest: Bits)
    requires |rest| >= 16
    ensures Reduce(AddInFront(r, [bit] + rest)) == AddInFront(Step(r, bit), rest)
  {
  }

  lemma {:induction false} FeedFromRegister(r: Register, bits: Bits)
    ensures Feed(r, bits) == Remainder(AddInFront(r, bits + Zeros(16)))
    decreases |bits|
  {
    if bits == [] {
      assert AddInFront(r, bits + Zeros(16)) == r;
    } else {
      FeedFromRegister(Step(r, bits[0]), bits[1..]);
      ReduceIsStep(r, bits[0], bits[1..] + Zeros(16));
      assert bits + Zeros(16) == [bits[0]] + (bits[1..] + Zeros(16));
    }
  }

  /** Feeding a cleared register leaves the remainder of the polynomial times x^16. */
  lemma FeedDivides(bits: Bits)
    ensures Feed(Zeros(16), bits) == Remainder(bits + Zeros(16))
  {
    FeedFromRegister(Zeros(16), bits);
    assert AddInFront(Zeros(16), bits + Zeros(16)) == bits + Zeros(16);
  }

  // ---- Feeding is linear, injective, and shifts a register's own coefficients out ----

  lemma StepIsLinear(r: Register, s: Register, x: bool, y: bool)
    ensures Step(Xor(r, s), x != y) == Xor(Step(r, x), Step(s, y))
  {
  }

  lemma {:induction false} FeedIsLinear(r: Register, s: Register, x: Bits, y: Bits)
    requires |x| == |y|
    ensures Feed(Xor(r, s), Xor(x, y)) == Xor(Feed(r, x), Feed(s, y))
    decreases |x|
  {
    if x != [] {
      StepIsLinear(r, s, x[0], y[0]);
      assert Xor(x, y)[1..] == Xor(x[1..], y[1..]);
      FeedIsLinear(Step(r, x[0]), Step(s, y[0]), x[1..], y[1..]);
    }
  }

  lemma StepIsInjective(r: Register, s: Register, bit: bool)
    requires Step(r, bit) == Step(s, bit)
    ensures r == s
  {
    assert Step(r, bit)[15] == Step(s, bit)[15];
    forall i | 1 <= i < 16
      ensures r[i] == s[i]
    {
      assert Step(r, bit)[i - 1] == Step(s, bit)[i - 1];
    }
  }

  lemma {:induction false} FeedIsInjective(r: Register, s: Register, bits: Bits)
    requires Feed(r, bits) == Feed(s, bits)
    ensures r == s
    decreases |bits|
  {
    if bits != [] {
      FeedIsInjective(Step(r, bits[0]), Step(s, bits[0]), bits[1..]);
      StepIsInjective(r, s, bits[0]);
    }
  }

  lemma {:induction false} OwnBitsShiftOut(own: Bits, rest: Bits)
    requires |own| + |rest| == 16
    ensures Feed(own + rest, own) == rest + Zeros(|own|)
    decreases |own|
  {
    if own == [] {
      assert own + rest == rest + Zeros(0);
    } else {
      assert Step(own + rest, own[0]) == own[1..] + (rest + [false]);
      OwnBitsShiftOut(own[1..], rest + [false]);
      assert (rest + [false]) + Zeros(|own| - 1) == rest + Zeros(|own|);
    }
  }

  lemma XorSelf(a: Bits, b: Bits)
    requires |a| == |b|
    ensures (Xor(a, b) == Zeros(|a|)) == (a == b)
  {
    assert a != b ==> exists i :: 0 <= i < |a| && a[i] != b[i];
    assert forall i :: 0 <= i < |a| && Xor(a, b) == Zeros(|a|) ==> a[i] == b[i] by {
      forall i | 0 <= i < |a| && Xor(a, b) == Zeros(|a|)
        ensures a[i] == b[i]
      {
        assert !Xor(a, b)[i];
      }
    }
  }

  lemma OnlyZerosFeedToZero(d: Bits)
    requires |d| <= 16 && Feed(Zeros(16), d) == Zeros(16)
    ensures d == Zeros(|d|)
  {
    var pad := Zeros(16 - |d|);
    OwnBitsShiftOut(d, pad);
    assert pad + Zeros(|d|) == Zeros(16);
    FeedIsInjective(Zeros(16), d + pad, d);
    assert d == (d + pad)[..|d|];
  }

  /** Two different strings of at most 16 coefficients never lead from one register to the same one. */
  lemma ShortFeedIsInjective(r: Register, v: Bits, w: Bits)
    requires |v| == |w| <= 16 && Feed(r, v) == Feed(r, w)
    ensures v == w
  {
    FeedIsLinear(r, r, v, w);
    XorSelf(r, r);
    XorSelf(Feed(r, v), Feed(r, w));
    OnlyZerosFeedToZero(Xor(v, w));
    XorSelf(v, w);
  }
}
