// The multiply and divide extension: the reference interpreter's arithmetic, the two
// testbench golden models, and what both compute.
module MExt {
  import opened Words

  const TWO31: int := 0x8000_0000
  const TWO64: int := 0x1_0000_0000_0000_0000

  function Word(v: int): word { v % TWO32 }

  function Size(a: int): nat { if a < 0 then -a else a }

  // C's division truncates toward zero; its remainder takes the dividend's sign.
  function Quot(a: int, b: int): int
    requires b != 0
  {
    var q: int := Div(Size(a), Size(b));
    if (a < 0) == (b < 0) then q else -q
  }

  function Rem(a: int, b: int): int
    requires b != 0
  {
    var r: int := Mod(Size(a), Size(b));
    if a < 0 then -r else r
  }

  // Product, opaque to linear reasoning.
  function Mul(a: int, b: int): int { a * b }

  // The high word of a 64-bit pattern.
  function HighOf(p: int): word
  {
    HighFits(p);
    (p % TWO64) / TWO32
  }

  lemma HighFits(p: int)
    ensures 0 <= (p % TWO64) / TWO32 < TWO32
  {
  }

  // ------------------------------------------------------ the interpreter --

  // The M arm of the interpreter: operands widened to 64 bits both ways.
  function Interpret(f3: nat, x: word, y: word): word
    requires f3 < 8
  {
    var (a, b, au, bu) := (AsSigned(x), AsSigned(y), x, y);
    match f3
    case 0 => Word(Mul(a, b))
    case 1 => Word(Mul(a, b) / TWO32)
    case 2 => HighOf(Mul(a % TWO64, bu))
    case 3 => HighOf(Mul(au, bu))
    case 4 =>
      if b == 0 then 0xFFFF_FFFF
      else if a == -TWO31 && b == -1 then Word(-TWO31)
      else Word(Quot(a, b))
    case 5 => if b == 0 then 0xFFFF_FFFF else DivU(au, bu)
    case 6 =>
      if b == 0 then Word(a)
      else if a == -TWO31 && b == -1 then 0
      else Word(Rem(a, b))
    case _ => if b == 0 then Word(a) else RemU(au, bu)
  }

  function DivU(a: word, b: word): word
    requires b != 0
  {
    Shrinks(a, b);
    Div(a, b)
  }

  function RemU(a: word, b: word): word
    requires b != 0
  {
    Shrinks(a, b);
    Mod(a, b)
  }

  lemma Shrinks(a: nat, b: nat)
    requires b > 0
    ensures Div(a, b) <= a && Mod(a, b) < b && a == Mul(Div(a, b), b) + Mod(a, b)
  {
    Division(a, b);
  }

  // ------------------------------------------------------ the golden models --

  function GoldenMul(a: word, b: word, f3: nat): word {
    match f3
    case 0 => Word(Mul(AsSigned(a), AsSigned(b)))
    case 1 => HighOf(Mul(AsSigned(a), AsSigned(b)))
    case 2 => HighOf(Mul(AsSigned(a), b))
    case 3 => HighOf(Mul(a, b))
    case _ => 0
  }

  function GoldenDiv(a: word, b: word, f3: nat): word {
    var isRem := f3 / 2 % 2 == 1;
    var isUns := f3 % 2 == 1;
    if b == 0 then if isRem then a else 0xFFFF_FFFF
    else if !isUns then
      var (sa, sb) := (AsSigned(a), AsSigned(b));
      if sa == -TWO31 && sb == -1 then if isRem then 0 else 0x8000_0000
      else if isRem then Word(Rem(sa, sb)) else Word(Quot(sa, sb))
    else if isRem then RemU(a, b) else DivU(a, b)
  }

  // ------------------------------------------------------ they agree --

  lemma WordSigned(w: word)
    ensures Word(AsSigned(w)) == w && (AsSigned(w) == 0 <==> w == 0)
  {
  }

  // The arithmetic shift of the interpreter and the logical one of the golden model
  // leave the same word.
  lemma HighIsFloor(p: int)
    requires -TWO64 / 2 <= p < TWO64 / 2
    ensures HighOf(p) == Word(p / TWO32)
  {
  }

  lemma ProductRange(a: int, b: int)
    requires -TWO31 <= a < TWO31 && -TWO31 <= b < TWO31
    ensures -TWO64 / 2 <= Mul(a, b) < TWO64 / 2
  {
    MulBound(a, b, TWO31, TWO31);
  }

  lemma MulBound(a: int, b: int, m: nat, n: nat)
    requires 0 - m <= a <= m && 0 - n <= b <= n
    ensures -(m * n) <= Mul(a, b) <= m * n
  {
    var (x, y) := (if a < 0 then -a else a, if b < 0 then -b else b);
    MulMono(x, m, y);
    MulMono(y, n, m);
    assert Mul(a, b) == x * y || Mul(a, b) == -(x * y);
  }

  // A negative operand seen as a 64-bit pattern gives the same 64-bit product.
  lemma WrapOperand(a: int, b: int)
    ensures Mul(a % TWO64, b) % TWO64 == Mul(a, b) % TWO64
  {
    var q := a / TWO64;
    assert a == q * TWO64 + a % TWO64;
    assert Mul(a, b) == Mul(a % TWO64, b) + (q * b) * TWO64;
    WrapAway(Mul(a % TWO64, b), q * b);
  }

  lemma WrapAway(p: int, k: int)
    ensures (p + k * TWO64) % TWO64 == p % TWO64
  {
  }

  // For all operands, the interpreter and the golden models give the same word.
  lemma AllAgree(f3: nat, x: word, y: word)
    requires f3 < 8
    ensures Interpret(f3, x, y) == if f3 < 4 then GoldenMul(x, y, f3) else GoldenDiv(x, y, f3)
  {
    hide Mul, HighOf, Quot, Rem, DivU, RemU;
    WordSigned(x);
    WordSigned(y);
    if f3 == 1 {
      ProductRange(AsSigned(x), AsSigned(y));
      HighIsFloor(Mul(AsSigned(x), AsSigned(y)));
    } else if f3 == 2 {
      WrapOperand(AsSigned(x), y);
      HighSame(Mul(AsSigned(x) % TWO64, y), Mul(AsSigned(x), y));
    }
  }

  lemma HighSame(p: int, q: int)
    requires p % TWO64 == q % TWO64
    ensures HighOf(p) == HighOf(q)
  {
  }

  // ------------------------------------------------------ what they compute --

  lemma HalvesMake(p: int)
    ensures HighOf(p) * TWO32 + Word(p) == p % TWO64
  {
  }

  lemma SignedHalves(p: int)
    requires -TWO64 / 2 <= p < TWO64 / 2
    ensures AsSigned(HighOf(p)) * TWO32 + Word(p) == p
  {
  }

  lemma LowWordSame(x: word, y: word)
    ensures Word(Mul(AsSigned(x), AsSigned(y))) == Word(Mul(x, y))
    ensures Word(Mul(AsSigned(x), y)) == Word(Mul(x, y))
  {
    var (a, b) := (if x < TWO31 then 0 else 1, if y < TWO31 then 0 else 1);
    assert AsSigned(x) == x - a * TWO32 && AsSigned(y) == y - b * TWO32;
    ShiftProduct(x, y, a, b);
    ShiftProduct(x, y, a, 0);
  }

  lemma ShiftProduct(x: int, y: int, a: int, b: int)
    ensures Word(Mul(x - a * TWO32, y - b * TWO32)) == Word(Mul(x, y))
  {
    var k := a * b * TWO32 - a * y - b * x;
    assert Mul(x - a * TWO32, y - b * TWO32) == Mul(x, y) + k * TWO32;
    WrapAway32(Mul(x, y), k);
  }

  lemma WrapAway32(p: int, k: int)
    ensures (p + k * TWO32) % TWO32 == p % TWO32
  {
  }

  // MUL's word under MULH's, MULHSU's or MULHU's recomposes the exact product, signed,
  // mixed or unsigned.
  lemma ProductsRecompose(x: word, y: word)
    ensures var low := Interpret(0, x, y);
            && AsSigned(Interpret(1, x, y)) * TWO32 + low == Mul(AsSigned(x), AsSigned(y))
            && AsSigned(Interpret(2, x, y)) * TWO32 + low == Mul(AsSigned(x), y)
            && Interpret(3, x, y) * TWO32 + low == Mul(x, y)
  {
    hide Mul, HighOf, AsSigned;
    SignedRange(x);
    SignedRange(y);
    AllAgree(1, x, y);
    AllAgree(2, x, y);
    ProductRange(AsSigned(x), AsSigned(y));
    SignedHalves(Mul(AsSigned(x), AsSigned(y)));
    MixedRange(AsSigned(x), y);
    SignedHalves(Mul(AsSigned(x), y));
    HalvesMake(Mul(x, y));
    UnsignedRange(x, y);
    LowWordSame(x, y);
  }

  lemma SignedRange(w: word)
    ensures -TWO31 <= AsSigned(w) < TWO31
  {
  }

  lemma MixedRange(a: int, b: word)
    requires -TWO31 <= a < TWO31
    ensures -TWO64 / 2 <= Mul(a, b) < TWO64 / 2
  {
    MulBound(a, b, TWO31, TWO32 - 1);
  }

  lemma UnsignedRange(a: word, b: word)
    ensures 0 <= Mul(a, b) < TWO64
  {
    MulBound(a, b, TWO32 - 1, TWO32 - 1);
    NonNegative(a, b);
  }

  lemma NonNegative(a: nat, b: nat)
    ensures Mul(a, b) >= 0
  {
  }

  // What truncating division means.
  ghost predicate Divides(a: int, b: int, q: int, r: int) {
    && a == Mul(q, b) + r
    && (if b < 0 then b < r < -b else -b < r < b)
    && (r > 0 ==> a > 0) && (r < 0 ==> a < 0)
  }

  lemma TruncDivides(a: int, b: int)
    requires b != 0
    ensures Divides(a, b, Quot(a, b), Rem(a, b))
  {
    hide Div, Mod;
    Shrinks(Size(a), Size(b));
    MulSigns(Div(Size(a), Size(b)), Size(b));
  }

  lemma MulSigns(q: int, b: int)
    ensures Mul(-q, b) == -Mul(q, b) && Mul(q, -b) == -Mul(q, b) && Mul(-q, -b) == Mul(q, b)
  {
  }

  lemma QuotFits(a: int, b: int)
    requires -TWO31 <= a < TWO31 && -TWO31 <= b < TWO31 && b != 0 && !(a == -TWO31 && b == -1)
    ensures AsSigned(Word(Quot(a, b))) == Quot(a, b) && AsSigned(Word(Rem(a, b))) == Rem(a, b)
  {
    hide Quot, Rem, Mul;
    TruncDivides(a, b);
    QuotBound(a, b, Quot(a, b), Rem(a, b));
  }

  lemma SizeOfProduct(q: int, b: int)
    ensures Size(Mul(q, b)) == Size(q) * Size(b)
  {
    MulSigns(Size(q), Size(b));
    NonNegative(Size(q), Size(b));
  }

  lemma AtLeast(q: int, b: int)
    ensures q != 0 ==> Size(Mul(q, b)) >= Size(b)
    ensures Size(b) >= 2 ==> Size(Mul(q, b)) >= 2 * Size(q)
    ensures Size(b) == 1 ==> Size(Mul(q, b)) == Size(q)
    ensures b == 1 ==> Mul(q, b) == q
  {
    SizeOfProduct(q, b);
    if q != 0 { MulMono(1, Size(q), Size(b)); }
    if Size(b) >= 2 { MulMono(2, Size(b), Size(q)); }
  }

  lemma QuotBound(a: int, b: int, q: int, r: int)
    requires -TWO31 <= a < TWO31 && -TWO31 <= b < TWO31 && b != 0 && !(a == -TWO31 && b == -1)
    requires Divides(a, b, q, r)
    ensures -TWO31 <= q < TWO31
  {
    hide Mul;
    AtLeast(q, b);
  }

  // Signed division by anything but zero, away from the one overflow: quotient and
  // remainder are those of truncation. The special cases are the ISA's.
  lemma SignedDivision(x: word, y: word)
    ensures var (a, b, q, r) := (AsSigned(x), AsSigned(y), AsSigned(Interpret(4, x, y)), AsSigned(Interpret(6, x, y)));
            if b == 0 then q == -1 && r == a
            else if a == -TWO31 && b == -1 then q == -TWO31 && r == 0
            else Divides(a, b, q, r)
  {
    hide Quot, Rem, Mul, Divides;
    WordSigned(x);
    WordSigned(y);
    if AsSigned(y) != 0 && !(AsSigned(x) == -TWO31 && AsSigned(y) == -1) {
      QuotFits(AsSigned(x), AsSigned(y));
      TruncDivides(AsSigned(x), AsSigned(y));
    }
  }

  lemma UnsignedDivision(x: word, y: word)
    ensures var (q, r) := (Interpret(5, x, y), Interpret(7, x, y));
            if y == 0 then q == 0xFFFF_FFFF && r == x else Divides(x, y, q, r)
  {
    hide Mul, Div, Mod;
    WordSigned(x);
    WordSigned(y);
    if y != 0 {
      Shrinks(x, y);
      NonNegative(Div(x, y), y);
    }
  }

  // The meaning determines the result: no other quotient and remainder satisfy it.
  lemma DivisionUnique(a: int, b: int, q: int, r: int, q2: int, r2: int)
    requires b != 0 && Divides(a, b, q, r) && Divides(a, b, q2, r2)
    ensures q == q2 && r == r2
  {
    hide Mul;
    Distributes(q, q2, b);
    AtLeast(q - q2, b);
  }

  lemma Distributes(q: int, q2: int, b: int)
    ensures Mul(q, b) - Mul(q2, b) == Mul(q - q2, b)
  {
  }
}
