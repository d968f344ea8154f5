/**
 The bit-serial shift register of the frame check sequence as a list of sixteen bits, lowest
 first, and its algebra: superposition, the residue, bursts and parity. Nothing here depends on
 the length of the message.
 */
module ShiftRegister {
  type Bits = seq<bool>

  /** Sixteen cells; index 0 is the cell that falls out next. */
  type Cells = r: seq<bool> | |r| == 16 witness seq(16, i => true)

  function Zeros(n: nat): (z: Bits)
    ensures |z| == n && forall i :: 0 <= i < n ==> !z[i]
  {
    seq(n, i => false)
  }

  function Ones(n: nat): (z: Bits)
    ensures |z| == n && forall i :: 0 <= i < n ==> z[i]
  {
    seq(n, i => true)
  }

  function Xor(x: Bits, y: Bits): (z: Bits)
    requires |x| == |y|
    ensures |z| == |x| && forall i :: 0 <= i < |x| ==> z[i] == (x[i] != y[i])
  {
    seq(|x|, i requires 0 <= i < |x| => x[i] != y[i])
  }

  function Not(x: Bits): (z: Bits)
    ensures |z| == |x| && forall i :: 0 <= i < |x| ==> z[i] == !x[i]
  {
    seq(|x|, i requires 0 <= i < |x| => !x[i])
  }

  /** One data bit enters: the outgoing cell plus the bit is fed back at x^16, x^12 and x^5. */
  function ShiftIn(r: Cells, bit: bool): (next: Cells)
    ensures next[15] == (r[0] != bit)
    ensures next[10] == (r[11] != (r[0] != bit)) && next[3] == (r[4] != (r[0] != bit))
    ensures forall i :: 0 <= i < 15 && i != 10 && i != 3 ==> next[i] == r[i + 1]
  {
    var out := r[0] != bit;
    r[1..4] + [r[4] != out] + r[5..11] + [r[11] != out] + r[12..] + [out]
  }

  function Register(r: Cells, bits: Bits): Cells {
    if bits == [] then r
    else ShiftIn(Register(r, bits[..|bits| - 1]), bits[|bits| - 1])
  }

  lemma {:induction false} RegisterAppend(r: Cells, a: Bits, b: Bits)
    ensures Register(r, a + b) == Register(Register(r, a), b)
  {
    if b == [] {
      assert a + b == a;
    } else {
      var c := b[..|b| - 1];
      assert (a + b)[..|a + b| - 1] == a + c;
      RegisterAppend(r, a, c);
    }
  }

  // ---- Superposition ----

  lemma ShiftInLinear(r: Cells, a: bool, t: Cells, b: bool)
    ensures ShiftIn(Xor(r, t), a != b) == Xor(ShiftIn(r, a), ShiftIn(t, b))
  {
  }

  lemma {:induction false} RegisterLinear(r: Cells, x: Bits, t: Cells, y: Bits)
    requires |x| == |y|
    ensures Register(Xor(r, t), Xor(x, y)) == Xor(Register(r, x), Register(t, y))
  {
    if x == [] {
      assert Xor(x, y) == [];
    } else {
      var n := |x| - 1;
      assert Xor(x, y)[..n] == Xor(x[..n], y[..n]);
      RegisterLinear(r, x[..n], t, y[..n]);
      ShiftInLinear(Register(r, x[..n]), x[n], Register(t, y[..n]), y[n]);
    }
  }

  /** Fed its own cells, the register never feeds back: it just empties. */
  lemma {:induction false} OwnCellsEmpty(r: Cells, k: nat)
    requires k <= 16
    ensures Register(r, r[..k]) == r[k..] + Zeros(k)
  {
    if k > 0 {
      OwnCellsEmpty(r, k - 1);
      assert r[..k][..k - 1] == r[..k - 1];
      var before := r[k - 1..] + Zeros(k - 1);
      assert before[0] == r[k - 1];
      assert ShiftIn(before, r[k - 1]) == r[k..] + Zeros(k);
    }
  }

  /** Entering up to sixteen bits equals adding them to the low cells and clocking in zeros. */
  lemma AbsorbBits(r: Cells, x: Bits)
    requires |x| <= 16
    ensures Register(r, x) == Register(Xor(r, x + Zeros(16 - |x|)), Zeros(|x|))
  {
    var n := |x|;
    var wide := x + Zeros(16 - n);
    OwnCellsEmpty(wide, n);
    assert wide[..n] == x;
    assert wide[n..] + Zeros(n) == Zeros(16);
    RegisterLinear(Xor(r, wide), Zeros(n), wide, x);
    assert Xor(Xor(r, wide), wide) == r;
    assert Xor(Zeros(n), x) == x;
    assert Xor(Register(Xor(r, wide), Zeros(n)), Zeros(16)) == Register(Xor(r, wide), Zeros(n));
  }

  /** The high octet only moves down; the low octet plus the data decide all the feedback. */
  lemma OctetSplit(lo: Bits, hi: Bits, x: Bits, entry: Cells)
    requires |lo| == |hi| == |x| == 8
    requires entry == Register(Xor(lo, x) + Zeros(8), Zeros(8))
    ensures Register(lo + hi, x) == Xor(hi + Zeros(8), entry)
  {
    var above, below := Zeros(8) + hi, Xor(lo, x) + Zeros(8);
    AbsorbBits(lo + hi, x);
    assert Xor(lo + hi, x + Zeros(8)) == Xor(above, below);
    assert Xor(Zeros(8), Zeros(8)) == Zeros(8);
    RegisterLinear(above, Zeros(8), below, Zeros(8));
    OwnCellsEmpty(above, 8);
    assert above[..8] == Zeros(8) && above[8..] == hi;
  }

  // ---- Bursts ----

  ghost predicate AgreeFrom(r: Cells, t: Cells, k: nat) {
    forall i :: k <= i < 16 ==> r[i] == t[i]
  }

  /**
   When two registers agree in the top cell after a step, both or neither fed back, so the cells
   that agree after the step agreed one place higher before it.
   */
  lemma StepBack(r: Cells, a: bool, t: Cells, b: bool, k: nat)
    requires k < 16 && AgreeFrom(ShiftIn(r, a), ShiftIn(t, b), k)
    ensures AgreeFrom(r, t, k + 1)
    ensures r == t ==> a == b
  {
    var r', t' := ShiftIn(r, a), ShiftIn(t, b);
    assert r'[15] == t'[15];
    forall i | k + 1 <= i < 16
      ensures r[i] == t[i]
    {
      assert r'[i - 1] == t'[i - 1];
    }
  }

  /** From one state, two windows of at most 16 - k bits that end k low cells apart are the same. */
  lemma {:induction false} WindowInjective(r: Cells, v: Bits, w: Bits, k: nat)
    requires |v| == |w| && k + |v| <= 16
    requires AgreeFrom(Register(r, v), Register(r, w), k)
    ensures v == w
  {
    if v != [] {
      var n := |v| - 1;
      StepBack(Register(r, v[..n]), v[n], Register(r, w[..n]), w[n], k);
      WindowInjective(r, v[..n], w[..n], k + 1);
      assert v == v[..n] + [v[n]] && w == w[..n] + [w[n]];
    }
  }

  /** A fixed input bit permutes the register states. */
  lemma ShiftInInjective(r: Cells, t: Cells, bit: bool)
    requires ShiftIn(r, bit) == ShiftIn(t, bit)
    ensures r == t
  {
    StepBack(r, bit, t, bit, 0);
    assert ShiftIn(r, bit)[15] == ShiftIn(t, bit)[15];
    assert r[0] == t[0];
  }

  lemma {:induction false} RegisterInjective(r: Cells, t: Cells, bits: Bits)
    requires Register(r, bits) == Register(t, bits)
    ensures r == t
  {
    if bits != [] {
      var init := bits[..|bits| - 1];
      ShiftInInjective(Register(r, init), Register(t, init), bits[|bits| - 1]);
      RegisterInjective(r, t, init);
    }
  }

  /** All differences between `x` and `y` lie in the `n` positions from `at`. */
  ghost predicate DifferWithin(x: Bits, y: Bits, at: nat, n: nat) {
    |x| == |y| && forall i :: 0 <= i < |x| && x[i] != y[i] ==> at <= i < at + n
  }

  lemma WindowChangesRegister(r: Cells, a: Bits, v: Bits, w: Bits, c: Bits)
    requires |v| == |w| <= 16 && v != w
    ensures Register(r, a + v + c) != Register(r, a + w + c)
  {
    RegisterAppend(r, a + v, c);
    RegisterAppend(r, a + w, c);
    RegisterAppend(r, a, v);
    RegisterAppend(r, a, w);
    if Register(r, a + v + c) == Register(r, a + w + c) {
      RegisterInjective(Register(r, a + v), Register(r, a + w), c);
      WindowInjective(Register(r, a), v, w, 0);
    }
  }

  /** A change confined to 16 consecutive bits, at any bit position, always moves the register. */
  lemma BurstChangesRegister(r: Cells, x: Bits, y: Bits, at: nat)
    requires DifferWithin(x, y, at, 16) && x != y
    ensures Register(r, x) != Register(r, y)
  {
    var lo := if at < |x| then at else |x|;
    var hi := if at + 16 < |x| then at + 16 else |x|;
    var a, v, w, c := x[..lo], x[lo..hi], y[lo..hi], x[hi..];
    assert a == y[..lo] && c == y[hi..];
    assert x == a + v + c && y == a + w + c;
    WindowChangesRegister(r, a, v, w, c);
  }

  /** The generator as a pattern of flipped bits: 17 of them, the first and the last among them. */
  function Generator(): (g: Bits)
    ensures |g| == 17 && g[0] && g[16]
  {
    [true] + ShiftIn(Zeros(16), true)
  }

  lemma GeneratorEmpties()
    ensures Register(Zeros(16), Generator()) == Zeros(16)
  {
    hide ShiftIn;
    var first := ShiftIn(Zeros(16), true);
    assert [true][..0] == [];
    assert Register(Zeros(16), []) == Zeros(16);
    assert Register(Zeros(16), [true]) == first;
    RegisterAppend(Zeros(16), [true], first);
    OwnCellsEmpty(first, 16);
    assert first[..16] == first && first[16..] + Zeros(16) == Zeros(16);
  }

  lemma XorZeros(r: Bits)
    ensures Xor(r, Zeros(|r|)) == r
  {
  }

  lemma GeneratorHides(r: Cells, v: Bits)
    requires |v| == 17
    ensures Register(r, Xor(v, Generator())) == Register(r, v)
  {
    hide ShiftIn, Register, Xor, Zeros, Generator;
    GeneratorEmpties();
    RegisterLinear(r, v, Zeros(16), Generator());
    XorZeros(r);
    XorZeros(Register(r, v));
  }

  lemma SameStartSameRegister(r: Cells, v: Bits, w: Bits)
    requires |v| == |w| == 17 && v[0] == w[0] && Register(r, v) == Register(r, w)
    ensures v == w
  {
    assert v == v[..1] + v[1..] + [] && w == v[..1] + w[1..] + [];
    if v[1..] != w[1..] {
      WindowChangesRegister(r, v[..1], v[1..], w[1..], []);
    }
  }

  /** Sixteen is the limit, and only just: a change within 17 bits hides exactly when it is the generator. */
  lemma SeventeenBitsHideIff(r: Cells, a: Bits, v: Bits, w: Bits, c: Bits)
    requires |v| == |w| == 17
    ensures Register(r, a + v + c) == Register(r, a + w + c) <==> v == w || w == Xor(v, Generator())
  {
    hide Generator;
    var t := Register(r, a);
    RegisterAppend(r, a + v, c);
    RegisterAppend(r, a + w, c);
    RegisterAppend(r, a, v);
    RegisterAppend(r, a, w);
    var u := Xor(v, Generator());
    GeneratorHides(t, v);
    if Register(r, a + v + c) == Register(r, a + w + c) {
      RegisterInjective(Register(t, v), Register(t, w), c);
      if v[0] == w[0] {
        SameStartSameRegister(t, v, w);
      } else {
        SameStartSameRegister(t, u, w);
      }
    }
  }

  // ---- Parity ----

  function Odd(x: Bits): bool {
    x != [] && Odd(x[..|x| - 1]) != x[|x| - 1]
  }

  function Flips(x: Bits, y: Bits): nat
    requires |x| == |y|
  {
    if x == [] then 0
    else Flips(x[..|x| - 1], y[..|y| - 1]) + (if x[|x| - 1] != y[|y| - 1] then 1 else 0)
  }

  lemma {:induction false} OddAppend(x: Bits, y: Bits)
    ensures Odd(x + y) == (Odd(x) != Odd(y))
  {
    if y == [] {
      assert x + y == x;
    } else {
      assert (x + y)[..|x + y| - 1] == x + y[..|y| - 1];
      OddAppend(x, y[..|y| - 1]);
    }
  }

  lemma OddOne(b: bool)
    ensures Odd([b]) == b
  {
    assert [b][..0] == [];
  }

  /** Three cells take the feedback, an odd number, so only the data bit changes the parity. */
  lemma ShiftInParity(r: Cells, bit: bool)
    ensures Odd(ShiftIn(r, bit)) == (Odd(r) != bit)
  {
    var out := r[0] != bit;
    var a, b, c := r[1..4], r[5..11], r[12..];
    assert r == [r[0]] + a + [r[4]] + b + [r[11]] + c;
    Six([r[0]], a, [r[4]], b, [r[11]], c);
    Six(a, [r[4] != out], b, [r[11] != out], c, [out]);
    OddOne(r[0]);
    OddOne(r[4]);
    OddOne(r[11]);
    OddOne(out);
    OddOne(r[4] != out);
    OddOne(r[11] != out);
  }

  lemma Six(a: Bits, b: Bits, c: Bits, d: Bits, e: Bits, f: Bits)
    ensures Odd(a + b + c + d + e + f) == (((((Odd(a) != Odd(b)) != Odd(c)) != Odd(d)) != Odd(e)) != Odd(f))
  {
    OddAppend(a, b);
    OddAppend(a + b, c);
    OddAppend(a + b + c, d);
    OddAppend(a + b + c + d, e);
    OddAppend(a + b + c + d + e, f);
  }

  /** The register's parity is its starting parity plus that of every bit consumed. */
  lemma {:induction false} RegisterParity(r: Cells, x: Bits)
    ensures Odd(Register(r, x)) == (Odd(r) != Odd(x))
  {
    if x != [] {
      RegisterParity(r, x[..|x| - 1]);
      ShiftInParity(Register(r, x[..|x| - 1]), x[|x| - 1]);
    }
  }

  lemma {:induction false} FlipsParity(x: Bits, y: Bits)
    requires |x| == |y|
    ensures Flips(x, y) % 2 == 1 <==> Odd(x) != Odd(y)
  {
    if x != [] {
      FlipsParity(x[..|x| - 1], y[..|y| - 1]);
    }
  }

  /** An odd number of flipped bits, wherever they are, always moves the register. */
  lemma OddFlipsChangeRegister(r: Cells, x: Bits, y: Bits)
    requires |x| == |y| && Flips(x, y) % 2 == 1
    ensures Register(r, x) != Register(r, y)
  {
    FlipsParity(x, y);
    RegisterParity(r, x);
    RegisterParity(r, y);
  }

  // ---- Residue ----

  const RESIDUE: Cells := Register(Zeros(16), Ones(16))

  /** Sixteen bits lead to the residue exactly when they are the complemented cells. */
  lemma ComplementIffResidue(r: Cells, x: Bits)
    requires |x| == 16
    ensures Register(r, x) == RESIDUE <==> x == Not(r)
  {
    OwnCellsEmpty(r, 16);
    assert r[..16] == r && r[16..] + Zeros(16) == Zeros(16);
    RegisterLinear(r, r, Zeros(16), Ones(16));
    assert Xor(r, Zeros(16)) == r && Xor(r, Ones(16)) == Not(r);
    assert Xor(Zeros(16), RESIDUE) == RESIDUE;
    assert Register(r, Not(r)) == RESIDUE;
    if Register(r, x) == RESIDUE {
      WindowInjective(r, x, Not(r), 0);
    }
  }
}
