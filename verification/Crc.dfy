// CRC-16/CCITT-FALSE over bytes, and why it catches every burst of up to 16 bits.
module Crc {
  import opened Words
  import opened CrcBits

  function High(b: octet): bv16 { (b as bv16) << 8 }

  function CrcByte(c: bv16, b: octet): bv16 { Shifts(c ^ High(b), 8) }

  // The register after the bytes of s, starting from c.
  function CrcFrom(c: bv16, s: seq<octet>): bv16
    decreases |s|
  {
    if s == [] then c else CrcFrom(CrcByte(c, s[0]), s[1..])
  }

  function CrcOf(s: seq<octet>): bv16 { CrcFrom(0xFFFF, s) }

  function Hi(c: bv16): octet { (c >> 8) as bv8 }
  function Lo(c: bv16): octet { (c & 0xFF) as bv8 }
  function Join(h: octet, l: octet): bv16 { High(h) | (l as bv16) }

  lemma JoinHiLo(c: bv16)
    ensures Join(Hi(c), Lo(c)) == c
  {
  }

  // ------------------------------------------- one byte --

  lemma CrcByteAs(c: bv16, b: octet)
    ensures CrcByte(c, b) == Xor(Shifts(c, 8), Shifts(High(b), 8))
  {
    hide Shifts, High;
    ShiftsLinear(c, High(b), 8);
  }

  lemma CrcByteInjective(a: bv16, b: bv16, x: octet)
    requires CrcByte(a, x) == CrcByte(b, x)
    ensures a == b
  {
    hide *;
    CrcByteAs(a, x);
    CrcByteAs(b, x);
    Exchange(Shifts(a, 8), Shifts(High(x), 8), Shifts(b, 8), Shifts(High(x), 8));
    XorZero(CrcByte(a, x), CrcByte(b, x));
    XorZero(Shifts(High(x), 8), Shifts(High(x), 8));
    XorZero(Xor(Shifts(a, 8), Shifts(b, 8)), 0);
    XorZero(Shifts(a, 8), Shifts(b, 8));
    ShiftsInjective(a, b, 8);
  }

  // ------------------------------------------- whole messages --

  lemma {:induction false} CrcAppend(c: bv16, s: seq<octet>, t: seq<octet>)
    ensures CrcFrom(c, s + t) == CrcFrom(CrcFrom(c, s), t)
    decreases |s|
  {
    hide CrcByte;
    if s == [] {
      assert s + t == t;
    } else {
      assert (s + t)[0] == s[0] && (s + t)[1..] == s[1..] + t;
      CrcAppend(CrcByte(c, s[0]), s[1..], t);
    }
  }

  // A difference in the register survives any further bytes.
  lemma {:induction false} CrcInjective(a: bv16, b: bv16, s: seq<octet>)
    requires CrcFrom(a, s) == CrcFrom(b, s)
    ensures a == b
    decreases |s|
  {
    hide CrcByte;
    if s != [] {
      CrcInjective(CrcByte(a, s[0]), CrcByte(b, s[0]), s[1..]);
      CrcByteInjective(a, b, s[0]);
    }
  }

  lemma ThreeBytes(c: bv16, s: seq<octet>)
    requires |s| == 3
    ensures CrcFrom(c, s) == CrcByte(CrcByte(CrcByte(c, s[0]), s[1]), s[2])
  {
    hide CrcByte;
    var c1 := CrcByte(c, s[0]);
    assert CrcFrom(c, s) == CrcFrom(c1, s[1..]);
    var c2 := CrcByte(c1, s[1]);
    assert CrcFrom(c1, s[1..]) == CrcFrom(c2, s[1..][1..]);
    assert s[1..][1..] == [s[2]];
    assert CrcFrom(c2, [s[2]]) == CrcFrom(CrcByte(c2, s[2]), [s[2]][1..]);
  }

  // ------------------------------------------- bursts --

  // Error patterns over three adjacent bytes whose bits all lie in one window of
  // 16: any pattern in the first two or the last two bytes is one.
  predicate Burst(e0: octet, e2: octet) {
    || e2 == 0
    || (e0 & 0x80 == 0 && e2 & 0x7F == 0)
    || (e0 & 0xC0 == 0 && e2 & 0x3F == 0)
    || (e0 & 0xE0 == 0 && e2 & 0x1F == 0)
    || (e0 & 0xF0 == 0 && e2 & 0x0F == 0)
    || (e0 & 0xF8 == 0 && e2 & 0x07 == 0)
    || (e0 & 0xFC == 0 && e2 & 0x03 == 0)
    || (e0 & 0xFE == 0 && e2 & 0x01 == 0)
    || e0 == 0
  }

  // The register an error pattern alone leaves, from a clear register.
  function Syndrome(e0: octet, e1: octet, e2: octet): bv16 {
    CrcByte(CrcByte(CrcByte(0, e0), e1), e2)
  }

  lemma SyndromeIs(e0: octet, e1: octet, e2: octet)
    ensures Syndrome(e0, e1, e2) == CrcByte(CrcByte(CrcByte(0, e0), e1), e2)
  {
    hide CrcByte;
  }

  // Patterns within two bytes, and those that reach far into the first or the third.
  lemma BurstInTwo(e0: octet, e1: octet, e2: octet)
    requires (e0 == 0 || e2 == 0) && Syndrome(e0, e1, e2) == 0
    ensures e0 == 0 && e1 == 0 && e2 == 0
  {
  }

  lemma BurstEarly(e0: octet, e1: octet, e2: octet)
    requires e0 & 0xF0 == 0 && Burst(e0, e2) && Syndrome(e0, e1, e2) == 0
    ensures e0 == 0 && e1 == 0 && e2 == 0
  {
  }

  lemma BurstLate(e0: octet, e1: octet, e2: octet)
    requires e2 & 0x1F == 0 && Burst(e0, e2) && Syndrome(e0, e1, e2) == 0
    ensures e0 == 0 && e1 == 0 && e2 == 0
  {
  }

  lemma BurstSides(e0: octet, e2: octet)
    requires Burst(e0, e2)
    ensures e0 == 0 || e2 == 0 || e0 & 0xF0 == 0 || e2 & 0x1F == 0
  {
  }

  lemma BurstSyndrome(e0: octet, e1: octet, e2: octet)
    requires Burst(e0, e2) && Syndrome(e0, e1, e2) == 0
    ensures e0 == 0 && e1 == 0 && e2 == 0
  {
    hide *;
    BurstSides(e0, e2);
    if e0 == 0 || e2 == 0 { BurstInTwo(e0, e1, e2); }
    else if e0 & 0xF0 == 0 { BurstEarly(e0, e1, e2); }
    else { BurstLate(e0, e1, e2); }
  }

  // Where two bytes differ.
  function Diff(a: octet, b: octet): octet { a ^ b }

  lemma HighXor(a: octet, b: octet)
    ensures High(Diff(a, b)) == Xor(High(a), High(b))
  {
  }

  lemma DiffZero(a: octet, b: octet)
    ensures Diff(a, b) == 0 <==> a == b
  {
  }

  // The difference of two registers after a byte is the register of the differences.
  lemma CrcByteDifference(c: bv16, a: octet, d: bv16, b: octet)
    ensures Xor(CrcByte(c, a), CrcByte(d, b)) == CrcByte(Xor(c, d), Diff(a, b))
  {
    hide *;
    CrcByteAs(c, a);
    CrcByteAs(d, b);
    CrcByteAs(Xor(c, d), Diff(a, b));
    HighXor(a, b);
    ShiftsLinear(c, d, 8);
    ShiftsLinear(High(a), High(b), 8);
    Exchange(Shifts(c, 8), Shifts(High(a), 8), Shifts(d, 8), Shifts(High(b), 8));
  }

  // Three bytes that differ at most by a burst, and leave equal registers, are equal.
  lemma SameRegisters(c: bv16, x: seq<octet>, y: seq<octet>)
    requires |x| == |y| == 3 && Burst(Diff(x[0], y[0]), Diff(x[2], y[2]))
    requires CrcFrom(c, x) == CrcFrom(c, y)
    ensures x == y
  {
    hide *;
    ThreeBytes(c, x);
    ThreeBytes(c, y);
    var (x1, y1) := (CrcByte(c, x[0]), CrcByte(c, y[0]));
    var (x2, y2) := (CrcByte(x1, x[1]), CrcByte(y1, y[1]));
    XorZero(c, c);
    CrcByteDifference(c, x[0], c, y[0]);
    CrcByteDifference(x1, x[1], y1, y[1]);
    CrcByteDifference(x2, x[2], y2, y[2]);
    XorZero(CrcByte(x2, x[2]), CrcByte(y2, y[2]));
    SyndromeIs(Diff(x[0], y[0]), Diff(x[1], y[1]), Diff(x[2], y[2]));
    BurstSyndrome(Diff(x[0], y[0]), Diff(x[1], y[1]), Diff(x[2], y[2]));
    DiffZero(x[0], y[0]);
    DiffZero(x[1], y[1]);
    DiffZero(x[2], y[2]);
    assert x == [x[0], x[1], x[2]] && y == [y[0], y[1], y[2]];
  }

  // ------------------------------------------- the check value --

  // A message followed by its two check bytes, high byte first.
  predicate Accepts(s: seq<octet>)
    requires |s| >= 2
  {
    CrcOf(s[..|s| - 2]) == Join(s[|s| - 2], s[|s| - 1])
  }

  function Low(b: octet): bv16 { b as bv16 }

  lemma LowShifts(l: octet)
    ensures Shifts(Low(l), 8) == High(l)
  {
  }

  lemma JoinIs(h: octet, l: octet)
    ensures Join(h, l) == Xor(High(h), Low(l))
  {
  }

  lemma CrcByteIs(c: bv16, b: octet)
    ensures CrcByte(c, b) == Shifts(Xor(c, High(b)), 8)
  {
    hide Shifts, High;
  }

  lemma XorSolve(c: bv16, a: bv16, b: bv16)
    ensures Xor(c, a) == b <==> c == Xor(a, b)
  {
    hide *;
    XorAssoc(c, a, a);
    XorZero(a, a);
    XorZero(c, c);
    XorComm(a, b);
    XorAssoc(b, a, a);
    XorZero(b, b);
  }

  lemma CheckBytes(c: bv16, h: octet, l: octet)
    ensures CrcByte(CrcByte(c, h), l) == 0 <==> c == Join(h, l)
  {
    hide *;
    var d := CrcByte(c, h);
    CrcByteIs(c, h);
    CrcByteIs(d, l);
    ShiftsOfZero(8);
    XorZero(d, High(l));
    LowShifts(l);
    JoinIs(h, l);
    XorSolve(c, High(h), Low(l));
    if CrcByte(d, l) == 0 {
      ShiftsInjective(Xor(d, High(l)), 0, 8);
      ShiftsInjective(Xor(c, High(h)), Low(l), 8);
    }
  }

  lemma TwoBytes(c: bv16, h: octet, l: octet)
    ensures CrcFrom(c, [h, l]) == CrcByte(CrcByte(c, h), l)
  {
    hide CrcByte;
    assert CrcFrom(c, [h, l]) == CrcFrom(CrcByte(c, h), [h, l][1..]);
    assert [h, l][1..] == [l];
    assert CrcFrom(CrcByte(c, h), [l]) == CrcFrom(CrcByte(CrcByte(c, h), l), [l][1..]);
  }

  // A message passes exactly when the register over all of it comes back to zero.
  lemma AcceptsIffZero(s: seq<octet>)
    requires |s| >= 2
    ensures Accepts(s) <==> CrcOf(s) == 0
  {
    hide CrcByte, Join;
    var (m, h, l) := (s[..|s| - 2], s[|s| - 2], s[|s| - 1]);
    assert s == m + [h, l];
    CrcAppend(0xFFFF, m, [h, l]);
    var c := CrcOf(m);
    TwoBytes(c, h, l);
    CheckBytes(c, h, l);
  }

  // No message that passes still passes after a burst of up to 16 bits.
  lemma BurstRejected(p: seq<octet>, x: seq<octet>, y: seq<octet>, q: seq<octet>)
    requires |x| == |y| == 3 && x != y && Burst(Diff(x[0], y[0]), Diff(x[2], y[2]))
    requires Accepts(p + x + q)
    ensures !Accepts(p + y + q)
  {
    hide CrcByte, Accepts, Burst;
    AcceptsIffZero(p + x + q);
    AcceptsIffZero(p + y + q);
    CrcAppend(0xFFFF, p + x, q);
    CrcAppend(0xFFFF, p, x);
    CrcAppend(0xFFFF, p + y, q);
    CrcAppend(0xFFFF, p, y);
    var c := CrcFrom(0xFFFF, p);
    if Accepts(p + y + q) {
      CrcInjective(CrcFrom(c, x), CrcFrom(c, y), q);
      SameRegisters(c, x, y);
    }
  }

  // ------------------------------------------- the published check value --

  lemma CheckThree()
    ensures CrcByte(0xFFFF, 0x31) == 0xC782 && CrcByte(0xC782, 0x32) == 0x3DBA && CrcByte(0x3DBA, 0x33) == 0x5BCE
  {
  }

  lemma CheckSix()
    ensures CrcByte(0x5BCE, 0x34) == 0x5349 && CrcByte(0x5349, 0x35) == 0x4560 && CrcByte(0x4560, 0x36) == 0x2EF4
  {
  }

  lemma CheckNine()
    ensures CrcByte(0x2EF4, 0x37) == 0x7718 && CrcByte(0x7718, 0x38) == 0xA12B && CrcByte(0xA12B, 0x39) == 0x29B1
  {
  }

  // The digits 1 to 9 in ASCII give 0x29B1.
  lemma CheckValue()
    ensures CrcOf([0x31, 0x32, 0x33, 0x34, 0x35, 0x36, 0x37, 0x38, 0x39]) == 0x29B1
  {
    CheckThree();
    CheckSix();
    CheckNine();
    hide CrcByte;
    var a: seq<octet> := [0x31, 0x32, 0x33];
    var b: seq<octet> := [0x34, 0x35, 0x36];
    var c: seq<octet> := [0x37, 0x38, 0x39];
    assert [0x31, 0x32, 0x33, 0x34, 0x35, 0x36, 0x37, 0x38, 0x39] == a + b + c;
    CrcAppend(0xFFFF, a + b, c);
    CrcAppend(0xFFFF, a, b);
    ThreeBytes(0xFFFF, a);
    ThreeBytes(0x5BCE, b);
    ThreeBytes(0x2EF4, c);
  }
}
