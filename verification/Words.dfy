// Bytes, 32-bit words and their little-endian images, as the RV32 target stores them.
module Words {
  const TWO32: nat := 0x1_0000_0000

  type byte = x: int | 0 <= x < 0x100
  type octet = bv8
  type word = x: int | 0 <= x < 0x1_0000_0000

  // The low `n` bytes of w, least significant first.
  function LowBytes(w: nat, n: nat): (b: seq<byte>)
    ensures |b| == n
  {
    if n == 0 then [] else [w % 0x100] + LowBytes(w / 0x100, n - 1)
  }

  // Little-endian image of w modulo 2^32.
  function StoreLE(w: nat): (b: seq<byte>)
    ensures |b| == 4
  {
    LowBytes(w, 4)
  }

  function LoadLE(b: seq<byte>): word
    requires |b| == 4
  {
    var b0: int, b1: int, b2: int, b3: int := b[0], b[1], b[2], b[3];
    b0 + 0x100 * b1 + 0x1_0000 * b2 + 0x100_0000 * b3
  }

  lemma StoreBytes(w: nat)
    ensures StoreLE(w) == [w % 0x100, w / 0x100 % 0x100, w / 0x100 / 0x100 % 0x100, w / 0x100 / 0x100 / 0x100 % 0x100]
  {
    var q1 := w / 0x100;
    var q2 := q1 / 0x100;
    var q3 := q2 / 0x100;
    assert LowBytes(q3, 1) == [q3 % 0x100];
    assert LowBytes(q2, 2) == [q2 % 0x100] + LowBytes(q3, 1);
    assert LowBytes(q1, 3) == [q1 % 0x100] + LowBytes(q2, 2);
  }

  // The lowest byte and the rest.
  lemma SplitByte(n: nat, limit: nat)
    requires n < 0x100 * limit
    ensures n == n % 0x100 + 0x100 * (n / 0x100) && n / 0x100 < limit
  {
  }

  lemma Weighted(b: seq<byte>)
    requires |b| == 4
    ensures var (b0, b1, b2, b3) := (b[0] as int, b[1] as int, b[2] as int, b[3] as int);
            LoadLE(b) == b0 + 0x100 * (b1 + 0x100 * (b2 + 0x100 * b3))
  {
  }

  lemma LoadStore(w: word)
    ensures LoadLE(StoreLE(w)) == w
  {
    StoreBytes(w);
    Weighted(StoreLE(w));
    hide *;
    var q1 := w / 0x100;
    var q2 := q1 / 0x100;
    var q3 := q2 / 0x100;
    SplitByte(w, 0x100_0000);
    SplitByte(q1, 0x1_0000);
    SplitByte(q2, 0x100);
    SplitByte(q3, 1);
  }

  lemma LowByte(b: byte, y: nat)
    ensures (b + 0x100 * y) / 0x100 == y && (b + 0x100 * y) % 0x100 == b
  {
  }

  lemma StoreLoad(b: seq<byte>)
    requires |b| == 4
    ensures StoreLE(LoadLE(b)) == b
  {
    Weighted(b);
    StoreBytes(LoadLE(b));
    hide *;
    var b0: int, b1: int, b2: int, b3: int := b[0], b[1], b[2], b[3];
    var y3 := b3;
    var y2 := b2 + 0x100 * y3;
    var y1 := b1 + 0x100 * y2;
    LowByte(b[0], y1);
    LowByte(b[1], y2);
    LowByte(b[2], y3);
    LowByte(b[3], 0);
  }

  // A 32-bit counter moves on by one.
  function Inc(w: word): word { (w + 1) % TWO32 }

  // A 32-bit pattern read as a signed value.
  function AsSigned(w: word): int { if w < 0x8000_0000 then w else w - TWO32 }

  // s with the bytes w laid over it at offset k.
  function Patch(s: seq<byte>, k: nat, w: seq<byte>): (r: seq<byte>)
    requires k + |w| <= |s|
    ensures |r| == |s|
  {
    s[..k] + w + s[k + |w|..]
  }

  // A patch inside the middle segment leaves the outer segments alone.
  lemma PatchMiddle(p: seq<byte>, m: seq<byte>, s: seq<byte>, k: nat, w: seq<byte>)
    requires k + |w| <= |m|
    ensures Patch(p + m + s, |p| + k, w) == p + Patch(m, k, w) + s
  {
  }

  // Reducing early does not change a 32-bit sum.
  lemma ModAdd(a: int, b: int)
    ensures (a % TWO32 + b) % TWO32 == (a + b) % TWO32
  {
    var q := a / TWO32;
    assert a == a % TWO32 + q * TWO32;
    assert (a % TWO32 + b + q * TWO32) % TWO32 == (a % TWO32 + b) % TWO32;
  }

  lemma MulMono(a: nat, b: nat, c: nat)
    requires a <= b
    ensures a * c <= b * c && c * a <= c * b
  {
  }

  // Division by a variable, kept out of sight of linear reasoning.
  function Div(n: nat, b: nat): nat
    requires b > 0
  {
    n / b
  }

  function Mod(n: nat, b: nat): nat
    requires b > 0
  {
    n % b
  }

  lemma Division(n: nat, b: nat)
    requires b > 0
    ensures n == Div(n, b) * b + Mod(n, b) && Mod(n, b) < b
    ensures Div(n, b) <= n && (n > 0 && b > 1 ==> Div(n, b) < n)
  {
    MulMono(1, b, n / b);
    if b > 1 { MulMono(2, b, n / b); }
  }
}
