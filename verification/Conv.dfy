// strtoul and strtol as the firmware computes them, in 32-bit arithmetic only, and the
// unbounded host reference they are checked against.
module Conv {
  import opened Words
  import opened Seqs
  import opened ConvSpec

  // A character of a NUL-terminated string: the terminator may be read, nothing past it.
  function At(s: string, i: nat): char
    requires i <= |s|
  {
    if i < |s| then s[i] else '\0'
  }

  lemma NulIsNothing(b: int)
    ensures !IsSpace('\0') && !IsSign('\0') && DigitOf('\0', b) < 0
  {
  }

  // ------------------------------------------------------ the saturation test --

  // Comparing against a quotient decides whether the product would overflow.
  lemma DivisionTest(v: nat, m: nat, base: nat)
    requires base > 0
    ensures v > m / base <==> v * base > m
  {
    var q := m / base;
    assert m == base * q + m % base;
    if v > q { MulMono(q + 1, v, base); } else { MulMono(v, q, base); }
  }

  lemma NumberGrows(s: string, i: nat, j: nat, b: int)
    requires i <= j < |s| && 0 < b && AllDigits(s[i..j + 1], b)
    ensures AllDigits(s[i..j], b)
    ensures Number(s[i..j + 1], b) == Number(s[i..j], b) * b + DigitOf(s[j], b)
  {
    hide DigitOf;
    var t := s[i..j + 1];
    assert t[..|t| - 1] == s[i..j];
    assert forall k :: 0 <= k < j - i ==> s[i..j][k] == t[k];
  }

  lemma DigitsSoFar(s: string, i: nat, j: nat, b: int)
    requires i <= j <= |s| && (forall k :: i <= k < j ==> DigitOf(s[k], b) >= 0)
    ensures AllDigits(s[i..j], b)
  {
  }

  lemma DigitRange(c: char, b: int)
    ensures -1 <= DigitOf(c, b) < 36
  {
  }

  lemma NeverShrinks(n: nat, d: nat, base: nat)
    requires base > 0
    ensures n * base + d >= n
  {
  }

  // ------------------------------------------------------ parse_mag --

  // What the magnitude parser promises about its outputs.
  ghost predicate Magnitude(s: string, base: int, v: word, end: nat, neg: bool, sat: bool) {
    var p := Split(s, base);
    if !ValidBase(base) || p.end == p.digits then
      v == 0 && end == 0 && !sat
    else
      var n := Number(s[p.digits..p.end], p.radix);
      end == p.end && (neg <==> Negative(s, p)) && (sat <==> n > ULONG_MAX) && (!sat ==> v == n)
  }

  method SpaceLoop(s: string) returns (p: nat)
    ensures p == SkipSpace(s, 0)
  {
    p := 0;
    while IsSpace(At(s, p))
      invariant p <= |s| && SkipSpace(s, 0) == SkipSpace(s, p)
      decreases |s| - p
    {
      p := p + 1;
    }
  }

  method ReadPrefix(s: string, p0: nat, base0: int) returns (p: nat, base: int)
    requires p0 <= |s|
    ensures p == SkipPrefix(s, p0, base0) && base == Radix(s, p0, base0)
  {
    hide DigitOf;
    NulIsNothing(16);
    p, base := p0, base0;
    if base == 0 || base == 16 {
      if At(s, p) == '0' && (At(s, p + 1) == 'x' || At(s, p + 1) == 'X') && DigitOf(At(s, p + 2), 16) >= 0 {
        base, p := 16, p + 2;
      } else if base == 0 {
        base := if At(s, p) == '0' then 8 else 10;
      }
    }
  }

  // One digit into the accumulator, or into saturation.
  method Accumulate(v: word, d: nat, base: int, saturate: bool, ghost n: nat) returns (w: word, sat: bool)
    requires d < 36 && 2 <= base <= 36
    requires saturate <==> n > ULONG_MAX
    requires !saturate ==> v == n
    ensures sat <==> n * base + d > ULONG_MAX
    ensures !sat ==> w == n * base + d
  {
    w, sat := v, saturate;
    NeverShrinks(n, d, base);
    if !saturate {
      DivisionTest(v, 0xFFFF_FFFF - d, base);
      if v > (0xFFFF_FFFF - d) / base {
        sat := true;
      } else {
        w := (v * base + d) % TWO32;
      }
    }
  }

  method DigitLoop(s: string, start: nat, base: int) returns (v: word, p: nat, saturate: bool)
    requires start <= |s| && 2 <= base <= 36
    ensures p == SkipDigits(s, start, base)
    ensures AllDigits(s[start..p], base)
    ensures saturate <==> Number(s[start..p], base) > ULONG_MAX
    ensures !saturate ==> v == Number(s[start..p], base)
  {
    hide DigitOf, Number;
    NulIsNothing(base);
    p, v, saturate := start, 0, false;
    NoDigits(base);
    assert s[start..start] == "";
    while true
      invariant start <= p <= |s| && SkipDigits(s, start, base) == SkipDigits(s, p, base)
      invariant forall k :: start <= k < p ==> DigitOf(s[k], base) >= 0
      invariant AllDigits(s[start..p], base)
      invariant saturate <==> Number(s[start..p], base) > ULONG_MAX
      invariant !saturate ==> v == Number(s[start..p], base)
      decreases |s| - p
    {
      var d := DigitOf(At(s, p), base);
      if d < 0 { break; }
      DigitRange(At(s, p), base);
      DigitsSoFar(s, start, p + 1, base);
      NumberGrows(s, start, p, base);
      v, saturate := Accumulate(v, d, base, saturate, Number(s[start..p], base));
      p := p + 1;
    }
  }

  lemma NoDigits(b: int)
    requires b > 0
    ensures Number("", b) == 0
  {
  }

  method ParseMag(s: string, base0: int) returns (v: word, end: nat, neg: bool, sat: bool)
    ensures Magnitude(s, base0, v, end, neg, sat)
  {
    hide DigitOf, IsSpace, Number, Radix, SkipPrefix, AllDigits;
    var p := SpaceLoop(s);
    neg := false;
    NulIsNothing(0);
    if At(s, p) == '+' || At(s, p) == '-' {
      neg := At(s, p) == '-';
      p := p + 1;
    }
    RadixRange(s, p, base0);
    var base;
    p, base := ReadPrefix(s, p, base0);
    if base < 2 || base > 36 { return 0, 0, neg, false; }
    var start := p;
    v, p, sat := DigitLoop(s, start, base);
    if p == start { return 0, 0, neg, false; }
    end := p;
  }

  lemma RadixRange(s: string, p: nat, base: int)
    ensures 2 <= Radix(s, p, base) <= 36 <==> ValidBase(base)
  {
    hide DigitOf;
  }

  // ------------------------------------------------------ strtoul, strtol --

  // The library's conversion status: cleared by every call, set when it saturates.
  class Status {
    var erange: bool

    constructor ()
      ensures !erange
    {
      erange := false;
    }

    // A null string converts to nothing and leaves a null end.
    method StrToUL(s: Option<string>, base: int) returns (r: word, end: Option<nat>)
      modifies this
      ensures s.None? ==> r == 0 && end == None && !erange
      ensures s.Some? ==> end.Some? && Outcome(r, end.value, erange) == StrTo(s.value, base, false)
    {
      hide Split, Number, Negative;
      erange := false;
      if s.None? { return 0, None; }
      var v, e, neg, sat := ParseMag(s.value, base);
      end := Some(e);
      if sat {
        erange := true;
        return 0xFFFF_FFFF, end;
      }
      r := if neg then (TWO32 - v) % TWO32 else v;
    }

    method StrToL(s: Option<string>, base: int) returns (r: int, end: Option<nat>)
      modifies this
      ensures s.None? ==> r == 0 && end == None && !erange
      ensures s.Some? ==> end.Some? && Outcome(r, end.value, erange) == StrTo(s.value, base, true)
      ensures LONG_MIN <= r <= LONG_MAX
    {
      hide Split, Number, Negative;
      erange := false;
      if s.None? { return 0, None; }
      var v, e, neg, sat := ParseMag(s.value, base);
      end := Some(e);
      var lim := if neg then 2147483648 else 2147483647;
      if sat || v > lim {
        erange := true;
        return if neg then -2147483647 - 1 else 2147483647, end;
      }
      r := if neg then AsSigned((TWO32 - v) % TWO32) else AsSigned(v);
    }
  }

  // ------------------------------------------------------ the host reference --

  function DigitTable(): (t: string)
    ensures |t| == 36
  {
    "0123456789abcdefghijklmnopqrstuvwxyz"
  }

  // ASCII lower case.
  function Lower(c: char): char {
    if 'A' <= c <= 'Z' then ((c as int) + 32) as char else c
  }

  // str.find for one character.
  function Find(t: string, c: char): (r: int)
    ensures -1 <= r < |t|
    ensures r >= 0 ==> t[r] == c
    ensures r < 0 ==> c !in t
    decreases |t|
  {
    if t == "" then -1
    else if t[0] == c then 0
    else
      var r := Find(t[1..], c);
      if r < 0 then -1 else r + 1
  }

  lemma TableAt(k: nat)
    requires k < 36
    ensures DigitTable()[k] as int == if k < 10 then '0' as int + k else 'a' as int + k - 10
  {
  }

  function HostDigit(c: char): int { Find(DigitTable(), Lower(c)) }

  lemma HostDigitIs(c: char, k: nat)
    requires k < 36 && Lower(c) == DigitTable()[k]
    ensures DigitOf(c, 36) == k
  {
    TableAt(k);
    hide DigitTable;
  }

  // Looking a character up in the digit table is the same as the firmware's ranges.
  lemma FindDigit(c: char, base: int)
    requires 2 <= base <= 36
    ensures var d := HostDigit(c);
            DigitOf(c, base) == if d < 0 || d >= base then -1 else d
  {
    hide DigitTable, Lower, DigitOf, Find;
    var d := HostDigit(c);
    if d >= 0 { HostDigitIs(c, d); } else { NoHostDigit(c); }
    DigitBase(c, base);
  }

  lemma DigitBase(c: char, base: int)
    requires base <= 36
    ensures DigitOf(c, base) == var v := DigitOf(c, 36); if v < base then v else -1
  {
  }

  lemma LowerDigit(c: char)
    requires DigitOf(c, 36) >= 0
    ensures var k := DigitOf(c, 36);
            k < 36 && Lower(c) as int == if k < 10 then '0' as int + k else 'a' as int + k - 10
  {
  }

  lemma NoHostDigit(c: char)
    ensures HostDigit(c) < 0 ==> DigitOf(c, 36) == -1
  {
    hide DigitTable, Find, Lower, DigitOf;
    DigitRange(c, 36);
    if DigitOf(c, 36) >= 0 {
      LowerDigit(c);
      TableAt(DigitOf(c, 36));
    }
  }

  method HostStrTo(s: string, base0: int, signed: bool) returns (val: int, end: nat, erange: bool)
    requires ValidBase(base0)
    ensures Outcome(val, end, erange) == StrTo(s, base0, signed)
  {
    hide DigitOf, IsSpace, Number, Radix, SkipPrefix, AllDigits;
    var i := HostSpace(s);
    var neg := false;
    if i < |s| && IsSign(s[i]) {
      neg := s[i] == '-';
      i := i + 1;
    }
    RadixRange(s, i, base0);
    var base;
    i, base := HostPrefix(s, i, base0);
    var start := i;
    val, i := HostDigits(s, start, base);
    if i == start { return 0, 0, false; }
    end, erange := i, false;
    if signed {
      if val > (if neg then LONG_MAX + 1 else LONG_MAX) {
        erange := true;
        val := if neg then LONG_MIN else LONG_MAX;
      } else {
        val := if neg then -val else val;
      }
    } else {
      if val > ULONG_MAX {
        erange := true;
        val := ULONG_MAX;
      } else if neg {
        val := (-val) % (ULONG_MAX + 1);
      }
    }
  }

  method HostSpace(s: string) returns (i: nat)
    ensures i == SkipSpace(s, 0)
  {
    i := 0;
    while i < |s| && IsSpace(s[i])
      invariant i <= |s| && SkipSpace(s, 0) == SkipSpace(s, i)
    {
      i := i + 1;
    }
  }

  method HostPrefix(s: string, i0: nat, base0: int) returns (i: nat, base: int)
    requires i0 <= |s|
    ensures i == SkipPrefix(s, i0, base0) && base == Radix(s, i0, base0)
  {
    hide DigitOf, HostDigit;
    i, base := i0, base0;
    if base == 0 || base == 16 {
      if i + 2 < |s| { FindDigit(s[i + 2], 16); }
      if i + 2 < |s| && s[i] == '0' && (s[i + 1] == 'x' || s[i + 1] == 'X')
         && 0 <= HostDigit(s[i + 2]) < 16 {
        base, i := 16, i + 2;
      } else if base == 0 {
        base := if i < |s| && s[i] == '0' then 8 else 10;
      }
    }
  }

  method HostDigits(s: string, start: nat, base: int) returns (val: nat, i: nat)
    requires start <= |s| && 2 <= base <= 36
    ensures i == SkipDigits(s, start, base)
    ensures AllDigits(s[start..i], base) && val == Number(s[start..i], base)
  {
    hide DigitOf, Number, HostDigit;
    i, val := start, 0;
    NoDigits(base);
    assert s[start..start] == "";
    while i < |s|
      invariant start <= i <= |s| && SkipDigits(s, start, base) == SkipDigits(s, i, base)
      invariant forall k :: start <= k < i ==> DigitOf(s[k], base) >= 0
      invariant AllDigits(s[start..i], base) && val == Number(s[start..i], base)
    {
      FindDigit(s[i], base);
      var d := HostDigit(s[i]);
      if d < 0 || d >= base { break; }
      DigitsSoFar(s, start, i + 1, base);
      NumberGrows(s, start, i, base);
      val := val * base + d;
      i := i + 1;
    }
  }
}
