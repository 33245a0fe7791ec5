module Crc16Division {
  /** CRC16_POLYNOMIAL (include/lib_arisr_crypt.h:36): x^16 + x^12 + x^5 + 1. */
  const CRC16_POLYNOMIAL: bv16 := 0x1021

  /** One MSB-first step of polynomial division: shift left, and XOR the
      polynomial in when the bit shifted out was set (0 - (reg >> 15) is all
      ones exactly when it was). */
  function BitStep(reg: bv16): bv16 {
    (reg << 1) ^ (CRC16_POLYNOMIAL & (0 - (reg >> 15)))
  }

  /** n BitSteps in a row. */
  function Steps(reg: bv16, n: nat): bv16 {
    if n == 0 then reg else BitStep(Steps(reg, n - 1))
  }

  /** Eight BitSteps in a row: one whole byte divided out. */
  function ByteStep(reg: bv16): bv16 {
    Steps(reg, 8)
  }

  /** ByteStep written out step by step, for evaluating it on constants. */
  function ByteStepUnrolled(reg: bv16): bv16 {
    BitStep(BitStep(BitStep(BitStep(BitStep(BitStep(BitStep(BitStep(reg))))))))
  }

  /** A data byte as a 16-bit value, as C's integer promotion widens it. */
  function Widen(b: bv8): bv16 {
    b as bv16
  }

  /** A byte placed in the top half of the register. */
  function Lift(c: bv8): bv16 {
    Widen(c) << 8
  }

  /** The table entry the polynomial generates for index i: i << 8 divided
      through eight MSB-first steps. */
  function Generated(i: bv8): bv16 {
    ByteStep(Lift(i))
  }

  /** The byte that the table divides when c is XORed into the top of the
      register. */
  function Index(reg: bv16, c: bv8): bv8 {
    (reg >> 8) as bv8 ^ c
  }

  /** XOR c into the top of the register, then divide eight times. */
  function Absorb(reg: bv16, c: bv8): bv16 {
    ByteStep(reg ^ Lift(c))
  }

  // ---------------------------------------------------------------------
  // Division is linear over GF(2)

  lemma BitStepLinear(x: bv16, y: bv16)
    ensures BitStep(x ^ y) == BitStep(x) ^ BitStep(y)
  {
  }

  lemma StepsSucc(x: bv16, n: nat)
    requires n > 0
    ensures Steps(x, n) == BitStep(Steps(x, n - 1))
  {
  }

  lemma StepOnce(x: bv16, y: bv16, n: nat)
    requires n > 0
    requires Steps(x ^ y, n - 1) == Steps(x, n - 1) ^ Steps(y, n - 1)
    ensures Steps(x ^ y, n) == Steps(x, n) ^ Steps(y, n)
  {
    StepsSucc(x ^ y, n);
    StepsSucc(x, n);
    StepsSucc(y, n);
    BitStepLinear(Steps(x, n - 1), Steps(y, n - 1));
  }

  /** n steps of division distribute over XOR. */
  lemma {:induction false} StepsLinear(x: bv16, y: bv16, n: nat)
    ensures Steps(x ^ y, n) == Steps(x, n) ^ Steps(y, n)
  {
    if n > 0 {
      StepsLinear(x, y, n - 1);
      StepOnce(x, y, n);
    }
  }

  lemma ByteStepIsSteps(x: bv16)
    ensures ByteStep(x) == Steps(x, 8)
  {
  }

  lemma ByteStepIsUnrolled(x: bv16)
    ensures ByteStep(x) == ByteStepUnrolled(x)
  {
    assert Steps(x, 1) == BitStep(x);
    assert Steps(x, 2) == BitStep(Steps(x, 1));
    assert Steps(x, 3) == BitStep(Steps(x, 2));
    assert Steps(x, 4) == BitStep(Steps(x, 3));
    assert Steps(x, 5) == BitStep(Steps(x, 4));
    assert Steps(x, 6) == BitStep(Steps(x, 5));
    assert Steps(x, 7) == BitStep(Steps(x, 6));
    assert Steps(x, 8) == BitStep(Steps(x, 7));
  }

  lemma ByteStepLinear(x: bv16, y: bv16)
    ensures ByteStep(x ^ y) == ByteStep(x) ^ ByteStep(y)
  {
    StepsLinear(x, y, 8);
    ByteStepIsSteps(x);
    ByteStepIsSteps(y);
    ByteStepIsSteps(x ^ y);
  }

  // ---------------------------------------------------------------------
  // Table-driven equals bitwise

  /** A low byte never reaches bit 15 in eight steps, so it only rises to
      the top of the register. */
  lemma LowByteRises(reg: bv16)
    ensures ByteStep(reg & 0xFF) == reg << 8
  {
    ByteStepIsUnrolled(reg & 0xFF);
  }

  /** The register with c XORed in splits into the index part, which the
      table divides, and the low byte. */
  lemma SplitAtIndex(reg: bv16, c: bv8)
    ensures reg ^ Lift(c) == Lift(Index(reg, c)) ^ (reg & 0xFF)
  {
  }

  lemma SplitVars(x: bv16, top: bv16, lo: bv16, sh: bv16)
    requires x == top ^ lo
    requires ByteStep(lo) == sh
    ensures ByteStep(x) == ByteStep(top) ^ sh
  {
    ByteStepLinear(top, lo);
  }

  lemma SplitNamed(reg: bv16, c: bv8, i: bv8, x: bv16, top: bv16, lo: bv16, sh: bv16)
    requires x == reg ^ Lift(c) && top == Lift(i) && lo == reg & 0xFF && sh == reg << 8
    requires x == top ^ lo
    requires ByteStep(lo) == sh
    ensures Absorb(reg, c) == Generated(i) ^ sh
  {
    SplitVars(x, top, lo, sh);
  }

  /** The bitwise update is the generated entry at the table index, XOR the
      register shifted up a byte: the identity the table-driven loop rests on. */
  lemma AbsorbSplit(reg: bv16, c: bv8)
    ensures Absorb(reg, c) == Generated(Index(reg, c)) ^ (reg << 8)
  {
    SplitAtIndex(reg, c);
    LowByteRises(reg);
    SplitNamed(reg, c, Index(reg, c), reg ^ Lift(c), Lift(Index(reg, c)), reg & 0xFF, reg << 8);
  }

  // ---------------------------------------------------------------------
  // Division loses nothing: distinct registers stay distinct

  /** One step of division is injective: the low bit of the result is the
      bit shifted out, since bit 0 of the polynomial is set, and the other
      fifteen bits then give back the rest. */
  lemma BitStepInjective(x: bv16, y: bv16)
    requires BitStep(x) == BitStep(y)
    ensures x == y
  {
  }

  /** n steps of division are injective. */
  lemma {:induction false} StepsInjective(x: bv16, y: bv16, n: nat)
    requires Steps(x, n) == Steps(y, n)
    ensures x == y
  {
    if n > 0 {
      StepsSucc(x, n);
      StepsSucc(y, n);
      BitStepInjective(Steps(x, n - 1), Steps(y, n - 1));
      StepsInjective(x, y, n - 1);
    }
  }

  /** Absorbing the same byte into two registers that differ gives
      registers that differ. */
  lemma AbsorbInjectiveReg(x: bv16, y: bv16, c: bv8)
    requires Absorb(x, c) == Absorb(y, c)
    ensures x == y
  {
    ByteStepIsSteps(x ^ Lift(c));
    ByteStepIsSteps(y ^ Lift(c));
    StepsInjective(x ^ Lift(c), y ^ Lift(c), 8);
    assert x == (x ^ Lift(c)) ^ Lift(c);
  }

  /** Absorbing two different bytes into one register gives registers
      that differ. */
  lemma AbsorbInjectiveByte(reg: bv16, c: bv8, d: bv8)
    requires Absorb(reg, c) == Absorb(reg, d)
    ensures c == d
  {
    ByteStepIsSteps(reg ^ Lift(c));
    ByteStepIsSteps(reg ^ Lift(d));
    StepsInjective(reg ^ Lift(c), reg ^ Lift(d), 8);
    assert Lift(c) == (reg ^ Lift(c)) ^ reg;
  }
}
