// The CRC's shift register as a linear and injective map on 16 bits.
module CrcBits {
  function Shift(c: bv16): bv16 {
    if c & 0x8000 != 0 then (c << 1) ^ 0x1021 else c << 1
  }

  // n steps of the shift register.
  function Shifts(c: bv16, n: nat): bv16
    decreases n
  {
    if n == 0 then c else Shift(Shifts(c, n - 1))
  }

  // ------------------------------------------- facts about single words --

  function Xor(a: bv16, b: bv16): bv16 { a ^ b }
  function Left(a: bv16): bv16 { a << 1 }
  predicate Top(a: bv16) { a & 0x8000 != 0 }
  function Poly(top: bool): bv16 { if top then 0x1021 else 0 }

  lemma BitsLeft(a: bv16, b: bv16)
    ensures (a ^ b) << 1 == (a << 1) ^ (b << 1)
  {
  }

  lemma BitsTop(a: bv16, b: bv16)
    ensures (a ^ b) & 0x8000 != 0 <==> (a & 0x8000 != 0) != (b & 0x8000 != 0)
  {
  }

  lemma LeftXor(a: bv16, b: bv16)
    ensures Left(Xor(a, b)) == Xor(Left(a), Left(b))
  {
    BitsLeft(a, b);
  }

  lemma TopXor(a: bv16, b: bv16)
    ensures Top(Xor(a, b)) == (Top(a) != Top(b))
  {
    BitsTop(a, b);
  }

  lemma ShiftAs(c: bv16)
    ensures Shift(c) == Xor(Left(c), Poly(Top(c)))
  {
    if Top(c) {
      assert Poly(Top(c)) == 0x1021;
    } else {
      assert Poly(Top(c)) == 0;
      XorZero(Left(c), 0);
    }
  }

  lemma XorComm(a: bv16, b: bv16)
    ensures Xor(a, b) == Xor(b, a)
  {
  }

  lemma XorAssoc(a: bv16, b: bv16, c: bv16)
    ensures Xor(Xor(a, b), c) == Xor(a, Xor(b, c))
  {
  }

  lemma Exchange(a: bv16, b: bv16, p: bv16, q: bv16)
    ensures Xor(Xor(a, b), Xor(p, q)) == Xor(Xor(a, p), Xor(b, q))
  {
    hide *;
    XorAssoc(a, b, Xor(p, q));
    XorAssoc(b, p, q);
    XorComm(b, p);
    XorAssoc(p, b, q);
    XorAssoc(a, p, Xor(b, q));
  }

  lemma PolyXor(p: bool, q: bool)
    ensures Poly(p != q) == Xor(Poly(p), Poly(q))
  {
  }

  lemma BitsZero(a: bv16, b: bv16)
    ensures a ^ b == 0 <==> a == b
    ensures a ^ a == 0 && a ^ 0 == a && 0 ^ a == a
  {
  }

  lemma XorZero(a: bv16, b: bv16)
    ensures Xor(a, b) == 0 <==> a == b
    ensures Xor(a, a) == 0 && Xor(a, 0) == a && Xor(0, a) == a
  {
    BitsZero(a, b);
  }

  // ------------------------------------------- the step as a linear map --

  lemma ShiftLinear(a: bv16, b: bv16)
    ensures Shift(Xor(a, b)) == Xor(Shift(a), Shift(b))
  {
    hide *;
    LeftXor(a, b);
    TopXor(a, b);
    ShiftAs(a);
    ShiftAs(b);
    ShiftAs(Xor(a, b));
    PolyXor(Top(a), Top(b));
    Exchange(Left(a), Left(b), Poly(Top(a)), Poly(Top(b)));
  }

  lemma {:induction false} ShiftsLinear(a: bv16, b: bv16, n: nat)
    ensures Shifts(Xor(a, b), n) == Xor(Shifts(a, n), Shifts(b, n))
  {
    hide Shift, Xor;
    if n > 0 {
      ShiftsLinear(a, b, n - 1);
      ShiftLinear(Shifts(a, n - 1), Shifts(b, n - 1));
    }
  }

  lemma ShiftKernel(a: bv16)
    ensures Shift(a) == 0 <==> a == 0
  {
  }

  // Bit 0 of the polynomial is set, so a step loses no information.
  lemma ShiftInjective(a: bv16, b: bv16)
    requires Shift(a) == Shift(b)
    ensures a == b
  {
    hide Shift, Xor;
    ShiftLinear(a, b);
    XorZero(Shift(a), Shift(b));
    ShiftKernel(Xor(a, b));
    XorZero(a, b);
  }

  lemma {:induction false} ShiftsInjective(a: bv16, b: bv16, n: nat)
    requires Shifts(a, n) == Shifts(b, n)
    ensures a == b
  {
    hide Shift;
    if n > 0 {
      ShiftInjective(Shifts(a, n - 1), Shifts(b, n - 1));
      ShiftsInjective(a, b, n - 1);
    }
  }

  lemma {:induction false} ShiftsOfZero(n: nat)
    ensures Shifts(0, n) == 0
  {
    if n > 0 { ShiftsOfZero(n - 1); }
  }
}
